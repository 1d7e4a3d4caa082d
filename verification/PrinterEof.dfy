/** When the Printer session ends: the run flag drops exactly at an end-of-file
    record whose bytes sum to zero, read off the text by an independent decoder
    of the current line. Also what extended-address records really store. */
module PrinterEof {
  import opened Spm
  import opened Chunks
  import opened IntelHex
  import opened Printer
  import opened PrinterPlacement

  type digit = v: nat | v < 16

  /** The bytes of the line being read: two digits each, everything else skipped. */
  datatype Line = NoLine | Open(bytes: seq<byte>, half: bool, nibble: digit)

  function ReadChar(h: Line, ch: char): (r: Line) {
    if ch == ':' then Open([], false, 0)
    else if h.NoLine? || HexToDecimal(ch) < 0 then h
    else if !h.half then Open(h.bytes, true, HexToDecimal(ch))
    else Open(h.bytes + [(16 * h.nibble + HexToDecimal(ch)) as byte], false, 0)
  }

  function LineOf(h: Line, xs: string): (r: Line)
    decreases |xs|
  {
    if |xs| == 0 then h else LineOf(ReadChar(h, xs[0]), xs[1..])
  }

  /** Header and data of the record: the bytes its checksum covers. */
  function Covered(bs: seq<byte>): (r: seq<byte>) {
    if |bs| > 0 && |bs| > 4 + bs[0] as nat then bs[..4 + bs[0] as nat] else bs
  }

  /** The line is an end-of-file record and its last byte is its checksum. */
  predicate AcceptedEof(h: Line) {
    && h.Open? && !h.half && |h.bytes| >= 5 && |h.bytes| >= 5 + h.bytes[0] as nat
    && h.bytes[3] == EOF_RECORD
    && (Sum(Covered(h.bytes)) + h.bytes[|h.bytes| - 1] as nat) % 256 == 0
  }

  /** The position in the record, from the bytes read so far. */
  predicate Position(p: Parser, bs: seq<byte>) {
    match p.phase
    case WaitLine => |bs| > 4 && bs[0] > 0
    case ByteCount => |bs| == 0
    case AddressHigh => |bs| == 1 && p.dataRem == bs[0]
    case AddressLow => |bs| == 2 && p.dataRem == bs[0]
    case RecordType => |bs| == 3 && p.dataRem == bs[0]
    case ReadData => |bs| >= 4 && p.recordType == bs[3] && p.dataRem > 0 && |bs| + p.dataRem as nat == 4 + bs[0] as nat
    case Checksum => |bs| >= 4 && p.recordType == bs[3] && |bs| >= 4 + bs[0] as nat
  }

  /** The parser's fields are those of the decoded line; a line abandoned at the
      boot section leaves the parser waiting. */
  predicate Agree(p: Parser, h: Line) {
    && (h.NoLine? ==> p.phase == WaitLine)
    && (h.Open? ==>
          && Position(p, h.bytes)
          && (p.phase != WaitLine ==>
                && p.readMSB == h.half && (h.half ==> LowNibble(p.data) == h.nibble)
                && p.checksum as nat == Sum(Covered(h.bytes)) % 256))
  }

  lemma CoveredAppend(bs: seq<byte>, b: byte, sum: byte)
    requires sum as nat == Sum(Covered(bs)) % 256
    ensures (|bs| == 0 || |bs| < 4 + bs[0] as nat || |bs| < 4) ==>
              AddByte(sum, b) as nat == Sum(Covered(bs + [b])) % 256
    ensures |bs| >= 4 && |bs| >= 4 + bs[0] as nat ==> Covered(bs + [b]) == Covered(bs)
  {
    var cs := bs + [b];
    if |bs| >= 4 && |bs| >= 4 + bs[0] as nat {
      assert cs[..4 + bs[0] as nat] == bs[..4 + bs[0] as nat];
      assert bs[..|bs|] == bs;
    } else {
      assert Covered(cs) == cs && Covered(bs) == bs;
      SumAppend(bs, [b]);
      assert [b][1..] == [] && Sum([b]) == b as nat + Sum([]);
      AddByteSum(0, sum, 0);
      ModSum(Sum(bs), b as nat);
    }
  }

  /** One completed byte keeps the agreement and drops the run flag only for an
      accepted end-of-file record. */
  lemma ByteAgrees(c: Part, p: Parser, bs: seq<byte>, b: byte)
    requires ValidPart(c) && p.phase != WaitLine && Position(p, bs) && p.checksum as nat == Sum(Covered(bs)) % 256
    ensures var q := TakeByte(c, p, b).p;
            && Position(q, bs + [b])
            && (q.phase != WaitLine ==> !q.readMSB && q.checksum as nat == Sum(Covered(bs + [b])) % 256)
  {
    hide PageOf, Offset, Sum, Covered, Complement, DataWord, Flush;
    CoveredAppend(bs, b, p.checksum);
    var q := p.(data := b, readMSB := false);
    FlushKeeps(c, q);
    DataWordKeeps(c, q.(checksum := AddByte(p.checksum, b), dataRem := ((p.dataRem as int + 255) % 256) as byte),
                  p.prevData, b);
  }

  lemma ChecksumMatches(sum: byte, n: nat, b: byte)
    requires sum as nat == n % 256
    ensures b == Complement(sum as nat) <==> (n + b as nat) % 256 == 0
  {
    var m := sum as nat;
    assert (n + b as nat) % 256 == (m + b as nat) % 256 by { ModSum(n, b as nat); }
    assert (m + b as nat) % 256 == 0 <==> m + b as nat == 0 || m + b as nat == 256;
  }

  lemma ByteDrops(c: Part, p: Parser, bs: seq<byte>, b: byte)
    requires ValidPart(c) && p.phase != WaitLine && Position(p, bs) && p.run
    requires p.checksum as nat == Sum(Covered(bs)) % 256
    ensures !TakeByte(c, p, b).p.run <==> p.phase == Checksum && AcceptedEof(Open(bs + [b], false, 0))
  {
    hide PageOf, Offset, Sum, Covered, Complement;
    CoveredAppend(bs, b, p.checksum);
    ChecksumMatches(p.checksum, Sum(Covered(bs)), b);
    assert (bs + [b])[|bs + [b]| - 1] == b;
  }

  /** The digit completes a byte of an open line. */
  predicate Completes(h: Line, ch: char) {
    ch != ':' && HexToDecimal(ch) >= 0 && h.Open? && h.half
  }

  lemma StepAgrees(c: Part, p: Parser, h: Line, ch: char)
    requires ValidPart(c) && Agree(p, h)
    ensures Agree(Step(c, p, ch).p, ReadChar(h, ch))
  {
    hide Position, Sum, Covered, Step, ReadChar, HexToDecimal;
    if p.phase == WaitLine || ch == ':' || HexToDecimal(ch) < 0 {
      AgreeIdle(c, p, h, ch);
    } else if h.half {
      SecondNibble(c, p, h, ch);
    } else {
      FirstNibble(c, p, h, ch);
    }
  }

  lemma FirstNibble(c: Part, p: Parser, h: Line, ch: char)
    requires ValidPart(c) && Agree(p, h) && p.phase != WaitLine && ch != ':' && HexToDecimal(ch) >= 0 && !h.half
    ensures Agree(Step(c, p, ch).p, ReadChar(h, ch))
  {
    hide Sum, Covered, TakeByte, HexToDecimal, ShiftIn, LowNibble;
  }

  lemma SecondNibble(c: Part, p: Parser, h: Line, ch: char)
    requires ValidPart(c) && Agree(p, h) && p.phase != WaitLine && ch != ':' && HexToDecimal(ch) >= 0 && h.half
    ensures Agree(Step(c, p, ch).p, ReadChar(h, ch))
  {
    hide Position, Sum, Covered, TakeByte, HexToDecimal, ShiftIn, LowNibble;
    ByteAgrees(c, p, h.bytes, (16 * h.nibble + HexToDecimal(ch)) as byte);
  }

  lemma AgreeIdle(c: Part, p: Parser, h: Line, ch: char)
    requires ValidPart(c) && Agree(p, h) && (p.phase == WaitLine || ch == ':' || HexToDecimal(ch) < 0)
    ensures Agree(Step(c, p, ch).p, ReadChar(h, ch))
  {
    hide PageOf, Offset, TakeByte;
    if h.Open? && h.half && p.phase == WaitLine && ch != ':' && HexToDecimal(ch) >= 0 {
      var bs := ReadChar(h, ch).bytes;
      assert |bs| == |h.bytes| + 1 && bs[0] == h.bytes[0];
    }
  }

  /** The run flag drops at exactly the digit that completes an accepted
      end-of-file record of a line that has not been abandoned. */
  lemma StepDrops(c: Part, p: Parser, h: Line, ch: char)
    requires ValidPart(c) && Agree(p, h) && p.run
    ensures !Step(c, p, ch).p.run
            <==> p.phase == Checksum && Completes(h, ch) && AcceptedEof(ReadChar(h, ch))
  {
    hide TakeByte, HexToDecimal, AcceptedEof, ShiftIn, LowNibble, Position, Sum, Covered;
    if p.phase != WaitLine && Completes(h, ch) {
      var v := HexToDecimal(ch);
      ByteDrops(c, p, h.bytes, (16 * h.nibble + v) as byte);
    }
  }

  lemma {:induction false} LineOfSnoc(h: Line, xs: string, ch: char)
    ensures LineOf(h, xs + [ch]) == ReadChar(LineOf(h, xs), ch)
    decreases |xs|
  {
    hide ReadChar;
    if |xs| == 0 {
      assert (xs + [ch])[1..] == [];
    } else {
      LineOfSnoc(ReadChar(h, xs[0]), xs[1..], ch);
      assert (xs + [ch])[1..] == xs[1..] + [ch];
    }
  }

  lemma {:induction false} RunAgrees(c: Part, l: Loader, h: Line, xs: string)
    requires ValidLoader(c, l) && Agree(l.p, h)
    ensures Agree(Run(c, l, xs).p, LineOf(h, xs))
    decreases |xs|
  {
    hide Step, Agree, ReadChar;
    if |xs| > 0 {
      StepAgrees(c, l.p, h, xs[0]);
      RunAgrees(c, Apply(l, Step(c, l.p, xs[0])), ReadChar(h, xs[0]), xs[1..]);
    }
  }

  /** A session that has ended read an accepted end-of-file record: position k
      of the stream completes it, with the flag still up before. */
  lemma {:induction false} DownMeansEof(c: Part, l: Loader, h: Line, xs: string) returns (k: nat)
    requires ValidLoader(c, l) && Agree(l.p, h) && l.p.run && !Run(c, l, xs).p.run
    ensures k < |xs| && Run(c, l, xs[..k]).p.run
    ensures Completes(LineOf(h, xs[..k]), xs[k]) && AcceptedEof(LineOf(h, xs[..k + 1]))
    decreases |xs|
  {
    hide Step, Agree, ReadChar, AcceptedEof, Completes;
    StepDrops(c, l.p, h, xs[0]);
    var l1, h1 := Apply(l, Step(c, l.p, xs[0])), ReadChar(h, xs[0]);
    assert xs[..0] == [] && xs[..1] == [xs[0]] && [xs[0]][1..] == [];
    if !l1.p.run {
      k := 0;
      assert LineOf(h, xs[..1]) == LineOf(h1, []);
    } else {
      StepAgrees(c, l.p, h, xs[0]);
      var j := DownMeansEof(c, l1, h1, xs[1..]);
      k := j + 1;
      assert xs[..k][1..] == xs[1..][..j] && xs[..k + 1][1..] == xs[1..][..j + 1] && xs[..k][0] == xs[0];
    }
  }

  /** The address of the line as the parser holds it; an end-of-file line is
      abandoned exactly at a data byte at or above the boot section. */
  predicate Traced(c: Part, p: Parser, h: Line) {
    h.Open? ==>
      var bs := h.bytes;
      && (|bs| <= 1 ==> p.addr == p.base)
      && (|bs| == 2 ==> p.addr == p.base + 256 * bs[1] as nat)
      && (|bs| >= 3 && (|bs| == 3 || bs[3] == EOF_RECORD) && p.phase != WaitLine ==>
            p.addr == p.base + Word(bs[1], bs[2]))
      && (|bs| > 4 && bs[3] == EOF_RECORD ==>
            (p.phase == WaitLine <==> bs[0] > 0 && p.base + Word(bs[1], bs[2]) >= c.boot))
  }

  lemma ByteTraced(c: Part, p: Parser, bs: seq<byte>, b: byte)
    requires ValidPart(c) && p.phase != WaitLine && Position(p, bs) && Traced(c, p, Open(bs, false, 0))
    ensures Traced(c, TakeByte(c, p, b).p, Open(bs + [b], false, 0))
  {
    hide PageOf, Offset, Complement, DataWord;
  }

  lemma StepTraced(c: Part, p: Parser, h: Line, ch: char)
    requires ValidPart(c) && Agree(p, h) && Traced(c, p, h)
    ensures Traced(c, Step(c, p, ch).p, ReadChar(h, ch))
  {
    hide TakeByte, HexToDecimal, Sum, Covered, Position, Traced, ShiftIn, LowNibble;
    if p.phase == WaitLine || ch == ':' || HexToDecimal(ch) < 0 {
      IdleTraced(c, p, h, ch);
    } else if h.half {
      var b := (16 * h.nibble + HexToDecimal(ch)) as byte;
      TracedAlike(c, p, p, h, Open(h.bytes, false, 0));
      ByteTraced(c, p, h.bytes, b);
    } else {
      TracedAlike(c, p, Step(c, p, ch).p, h, ReadChar(h, ch));
    }
  }

  lemma TracedAlike(c: Part, p: Parser, q: Parser, h: Line, k: Line)
    requires Traced(c, p, h) && h.Open? && k.Open? && k.bytes == h.bytes
    requires q.addr == p.addr && q.base == p.base && q.phase == p.phase
    ensures Traced(c, q, k)
  {
  }

  lemma IdleTraced(c: Part, p: Parser, h: Line, ch: char)
    requires ValidPart(c) && Agree(p, h) && Traced(c, p, h)
    requires p.phase == WaitLine || ch == ':' || HexToDecimal(ch) < 0
    ensures Traced(c, Step(c, p, ch).p, ReadChar(h, ch))
  {
    hide PageOf, Offset, TakeByte, HexToDecimal, Sum, Covered;
  }

  lemma {:induction false} RunTraced(c: Part, l: Loader, h: Line, xs: string)
    requires ValidLoader(c, l) && Agree(l.p, h) && Traced(c, l.p, h)
    ensures Traced(c, Run(c, l, xs).p, LineOf(h, xs))
    decreases |xs|
  {
    hide Step, ReadChar, Agree, Traced;
    if |xs| > 0 {
      StepAgrees(c, l.p, h, xs[0]);
      StepTraced(c, l.p, h, xs[0]);
      RunTraced(c, Apply(l, Step(c, l.p, xs[0])), ReadChar(h, xs[0]), xs[1..]);
    }
  }

  /** Conversely, an accepted end-of-file record ends the session exactly when it
      has no data bytes or its address lies below the boot section. */
  lemma EofDownIff(c: Part, l: Loader, h: Line, xs: string, ch: char)
    requires ValidLoader(c, l) && Agree(l.p, h) && Traced(c, l.p, h)
    requires Completes(LineOf(h, xs), ch) && AcceptedEof(LineOf(h, xs + [ch]))
    ensures var bs := LineOf(h, xs + [ch]).bytes;
            !Run(c, l, xs + [ch]).p.run
            <==> !Run(c, l, xs).p.run || bs[0] == 0 || Run(c, l, xs).p.base + Word(bs[1], bs[2]) < c.boot
  {
    hide Step, Sum, Covered, Run;
    var l1, h1 := Run(c, l, xs), LineOf(h, xs);
    RunAgrees(c, l, h, xs);
    RunTraced(c, l, h, xs);
    LineOfSnoc(h, xs, ch);
    RunAppend(c, l, xs, [ch]);
    OneStep(c, l1, ch);
    assert |h1.bytes| >= 4 && h1.bytes == LineOf(h, xs + [ch]).bytes[..|h1.bytes|];
    if l1.p.run {
      StepDrops(c, l1.p, h1, ch);
    } else {
      RunStaysDown(c, l1.p, ch);
    }
  }

  lemma OneStep(c: Part, l: Loader, ch: char)
    requires ValidLoader(c, l)
    ensures Run(c, l, [ch]).p == Step(c, l.p, ch).p
  {
    hide Step;
    assert [ch][1..] == [];
    assert Run(c, l, [ch]) == Run(c, Apply(l, Step(c, l.p, ch)), []);
  }

  // ----- extended addresses and odd records -----

  lemma ExtendedByte(c: Part, p: Parser, b: byte)
    requires ValidPart(c) && p.phase == ReadData && p.dataRem == 1 && p.addr < c.boot
    requires p.recordType == EXTENDED_SEGMENT || p.recordType == EXTENDED_LINEAR
    ensures var q := TakeByte(c, p, b).p;
            && q.phase == Checksum && q.recordType == p.recordType
            && q.base == (b as nat * 256 + p.prevData as nat) * (if p.recordType == EXTENDED_LINEAR then 65536 else 16)
  {
  }

  lemma ChecksumKeepsBase(c: Part, p: Parser, b: byte)
    requires ValidPart(c) && p.phase == Checksum
    ensures TakeByte(c, p, b).p.base == p.base
  {
  }

  /** The base an extended address record means: most significant byte first. */
  function IntendedBase(kind: byte, hi: byte, lo: byte): (a: nat) {
    (hi as nat * 256 + lo as nat) * (if kind == EXTENDED_LINEAR then 65536 else 16)
  }

  /** The bytes of an extended address record below the boot section: the word
      is assembled low byte first. */
  lemma ExtendedRead(c: Part, l: Loader, kind: byte, hi: byte, lo: byte)
    requires ValidLoader(c, l) && l.p.phase == ReadData && l.p.dataRem == 2 && l.p.recordType == kind
    requires l.p.addr < c.boot && (kind == EXTENDED_SEGMENT || kind == EXTENDED_LINEAR)
    ensures var r := RunBytes(c, l, [hi, lo]);
            r.p.phase == Checksum && r.p.base == IntendedBase(kind, lo, hi)
  {
    hide TakeByte, Apply;
    LowByte(c, l.p, hi);
    ExecNothing(l, TakeByte(c, l.p, hi).p);
    var l1 := ByteStep(c, l, hi);
    ExtendedByte(c, l1.p, lo);
    ApplyParser(l1, TakeByte(c, l1.p, lo));
    RunPair(c, l, hi, lo);
  }

  /** At or above it the first byte abandons the line and the base stays. */
  lemma ExtendedSkipped(c: Part, l: Loader, hi: byte, lo: byte)
    requires ValidLoader(c, l) && l.p.phase == ReadData && l.p.addr >= c.boot
    ensures var r := RunBytes(c, l, [hi, lo]);
            r.p.phase == WaitLine && r.p.base == l.p.base
  {
    hide Apply;
    ApplyParser(l, TakeByte(c, l.p, hi));
    RunPair(c, l, hi, lo);
  }

  lemma RunPair(c: Part, l: Loader, x: byte, y: byte)
    requires ValidLoader(c, l)
    ensures RunBytes(c, l, [x, y]) == ByteStep(c, ByteStep(c, l, x), y)
  {
    hide ByteStep;
    var l1 := ByteStep(c, l, x);
    assert [x, y][1..] == [y] && [y][1..] == [];
    assert RunBytes(c, l1, [y]) == RunBytes(c, ByteStep(c, l1, y), []);
  }

  /** The base an extended address record leaves, and exactly when that is the
      base it means. Below the boot section the word is assembled low byte
      first, so its bytes must be equal; at or above it the record is dropped,
      so the base must already be right. */
  lemma ExtendedBaseIff(c: Part, l: Loader, address: nat, kind: byte, hi: byte, lo: byte)
    requires ValidLoader(c, l) && address < 0x10000
    requires kind == EXTENDED_SEGMENT || kind == EXTENDED_LINEAR
    ensures var base, read := Run(c, l, Record(address, kind, [hi, lo])).p.base, l.p.base + address < c.boot;
            && base == (if read then IntendedBase(kind, lo, hi) else l.p.base)
            && (base == IntendedBase(kind, hi, lo) <==> if read then hi == lo else l.p.base == IntendedBase(kind, hi, lo))
  {
    hide Run, Record, TakeByte, Sum, Complement, Apply, RunBytes;
    var start := l.(p := l.p.(checksum := 0, addr := l.p.base, readMSB := false, phase := ByteCount));
    var l1 := start.(p := AfterHeader(start.p, 2, address, kind));
    RunRecord(c, l, address, kind, [hi, lo]);
    if l.p.base + address < c.boot {
      ExtendedRead(c, l1, kind, hi, lo);
    } else {
      ExtendedSkipped(c, l1, hi, lo);
    }
    var l3, b := RunBytes(c, l1, [hi, lo]), Complement(Sum(Header(2, address, kind) + [hi, lo]));
    if l3.p.phase == Checksum {
      ChecksumKeepsBase(c, l3.p, b);
      ApplyParser(l3, TakeByte(c, l3.p, b));
    }
  }

  /** Two records from a fresh start: the first sets a base at or above the boot
      section, and the second, which means base 0, no longer resets it. */
  lemma BaseStuck(c: Part, l: Loader)
    requires ValidLoader(c, l) && Fresh(l.p) && 0 < c.boot <= 0x100_0000
    ensures Run(c, l, Record(0, EXTENDED_LINEAR, [0, 1]) + Record(0, EXTENDED_LINEAR, [0, 0])).p.base == 0x100_0000
  {
    hide Run, Record;
    var first, second := Record(0, EXTENDED_LINEAR, [0, 1]), Record(0, EXTENDED_LINEAR, [0, 0]);
    ExtendedBaseIff(c, l, 0, EXTENDED_LINEAR, 0, 1);
    ExtendedBaseIff(c, Run(c, l, first), 0, EXTENDED_LINEAR, 0, 0);
    RunAppend(c, l, first, second);
  }

  lemma ApplyParser(l: Loader, o: Out)
    requires ValidMemory(l.m)
    ensures Apply(l, o).p == o.p
  {
  }

  /** A data record lands on its own addresses exactly when its length is even
      or all its bytes equal the low byte left over from before. */
  lemma RecordPlacedIff(c: Part, l: Loader, m0: Memory, done: seq<byte>, data: seq<byte>)
    requires Tracking(c, l, m0, done) && 0 < |data| < 256
    requires |done| < 0x10000 && |done| + |data| <= c.boot
    ensures var stream := done + Paired(l.p.prevData, data);
            && Tracking(c, Run(c, l, Record(|done|, DATA_RECORD, data)), m0, stream)
            && (stream[|done|..|done| + |data|] == data
                <==> |data| % 2 == 0 || forall k | 0 <= k < |data| :: data[k] == l.p.prevData)
  {
    hide Run, Record, Tracking, ValidLoader;
    PlaceRecord(c, l, m0, done, data);
    var prev := l.p.prevData;
    var stream := done + Paired(prev, data);
    if |data| % 2 == 0 {
      assert stream[|done|..|done| + |data|] == data;
    } else {
      ShiftedIff(prev, data);
      assert stream[|done|..|done| + |data|] == ([prev] + data)[..|data|];
    }
  }
}
