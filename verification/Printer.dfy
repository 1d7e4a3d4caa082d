/** The Printer class bootloader: a streaming Intel HEX parser that consumes one
    character at a time and drives the page buffer as it goes. The parser is a
    machine that answers each character with the SPM operations it issues;
    `Loader` runs those operations on the memory. */
module Printer {
  import opened Spm
  import opened IntelHex

  datatype Phase = WaitLine | ByteCount | AddressHigh | AddressLow | RecordType | ReadData | Checksum

  const EXTENDED_SEGMENT: byte := 2
  const EXTENDED_LINEAR: byte := 4

  /** The HEXParser structure with the PageDirty and RunBootloader flags. None
      of the 32-bit addresses can wrap: the base is at most 0xFFFF0000, a record
      adds at most 0xFFFF, and data only advances an address below `boot`. */
  datatype Parser = Parser(
    phase: Phase, prevData: byte, data: byte, readMSB: bool, recordType: byte, dataRem: byte, checksum: byte,
    pageStart: nat, base: nat, addr: nat, dirty: bool, run: bool)

  /** SPM_PAGESIZE and BOOT_START_ADDR. */
  datatype Part = Part(page: nat, boot: nat)

  predicate ValidPart(c: Part) {
    ValidPage(c.page) && Aligned(c.boot, c.page)
  }

  datatype Out = Out(p: Parser, ops: seq<Op>)

  /** HexToDecimal: the value of an uppercase hexadecimal digit, -1 otherwise. */
  function HexToDecimal(c: char): (v: int)
    ensures -1 <= v < 16
    ensures v >= 0 <==> c in "0123456789ABCDEF"
    ensures v >= 0 ==> Digit(v) == c
  {
    if 'A' <= c <= 'F' then 10 + (c as int - 'A' as int)
    else if '0' <= c <= '9' then c as int - '0' as int
    else -1
  }

  function LowNibble(b: byte): (v: nat)
    ensures v < 16
  {
    (b % 16) as nat
  }

  /** A digit shifted into a byte from the right. */
  function ShiftIn(data: byte, v: int): (r: byte)
    requires 0 <= v < 16
    ensures r as int == 16 * LowNibble(data) + v && LowNibble(r) == v
  {
    var d := data as int;
    assert d * 16 + v == 256 * (d / 16) + (d % 16 * 16 + v);
    ((d * 16 + v) % 256) as byte
  }

  /** FlushPageIfRequired. */
  function Flush(c: Part, p: Parser): (o: Out)
    requires ValidPart(c)
  {
    if p.dirty && p.pageStart != PageOf(p.addr, c.page)
    then Out(p.(pageStart := PageOf(p.addr, c.page), dirty := false), [WriteOp(p.pageStart)])
    else Out(p, [])
  }

  /** One word of a data record: erase on the first word of a page, fill, and
      flush when the page boundary is crossed. */
  function DataWord(c: Part, p: Parser, lo: byte, hi: byte): (o: Out)
    requires ValidPart(c)
  {
    var erase := if p.dirty then [] else [EraseOp(p.pageStart)];
    var flush := Flush(c, p.(dirty := true, addr := p.addr + 2));
    Out(flush.p, erase + [FillOp(p.addr, lo, hi)] + flush.ops)
  }

  /** The READ_DATA case of the state machine, once `p.data` holds a byte. */
  function DataByte(c: Part, p: Parser): (o: Out)
    requires ValidPart(c)
  {
    var rem := ((p.dataRem as int + 255) % 256) as byte;
    var q := p.(dataRem := rem);
    if q.addr >= c.boot then Out(q.(phase := WaitLine, dirty := false), [])
    else if rem % 2 == 1 then Out(q.(prevData := q.data), [])
    else
      var o := WordRead(c, q);
      Out(if rem == 0 then o.p.(phase := Checksum) else o.p, o.ops)
  }

  /** The switch on the record type once a word is complete. */
  function WordRead(c: Part, p: Parser): (o: Out)
    requires ValidPart(c)
  {
    var word := p.data as nat * 256 + p.prevData as nat;
    if p.recordType == DATA_RECORD then DataWord(c, p, p.prevData, p.data)
    else if p.recordType == EXTENDED_SEGMENT then Out(p.(base := word * 16), [])
    else if p.recordType == EXTENDED_LINEAR then Out(p.(base := word * 65536), [])
    else Out(p, [])
  }

  /** The CHECKSUM case: a record whose checksum matches is flushed, and an
      end-of-file record ends the session. The phase does not change. */
  function ChecksumByte(c: Part, p: Parser): (o: Out)
    requires ValidPart(c)
  {
    if p.data != Complement(p.checksum as nat) then Out(p, [])
    else
      var o := Flush(c, p);
      Out(o.p.(run := o.p.run && p.recordType != EOF_RECORD), o.ops)
  }

  /** What ParseIntelHEXByte does with a completed byte `b` outside WAIT_LINE. */
  function TakeByte(c: Part, p: Parser, b: byte): (o: Out)
    requires ValidPart(c)
  {
    var q := p.(data := b, readMSB := false);
    var r := if q.phase == Checksum then q else q.(checksum := ((q.checksum as int + b as int) % 256) as byte);
    match r.phase
    case WaitLine => Out(r, [])
    case ByteCount => Out(r.(dataRem := b, phase := AddressHigh), [])
    case AddressHigh => Out(r.(addr := r.addr + b as nat * 256, phase := AddressLow), [])
    case AddressLow => Out(r.(addr := r.addr + b as nat, phase := RecordType), [])
    case RecordType => Out(r.(recordType := b, phase := if r.dataRem != 0 then ReadData else Checksum), [])
    case ReadData => DataByte(c, r)
    case Checksum => ChecksumByte(c, r)
  }

  /** ParseIntelHEXByte. */
  function Step(c: Part, p: Parser, ch: char): (o: Out)
    requires ValidPart(c)
  {
    if p.phase == WaitLine || ch == ':' then
      var q := p.(checksum := 0, addr := p.base, readMSB := false);
      Out(if ch == ':' then q.(phase := ByteCount) else q, [])
    else if HexToDecimal(ch) < 0 then Out(p, [])
    else DigitStep(c, p, HexToDecimal(ch))
  }

  /** One digit of a record. */
  function DigitStep(c: Part, p: Parser, v: int): (o: Out)
    requires ValidPart(c) && 0 <= v < 16
  {
    var data := ShiftIn(p.data, v);
    if !p.readMSB then Out(p.(data := data, readMSB := true), []) else TakeByte(c, p, data)
  }

  // ----- runs -----

  datatype Loader = Loader(p: Parser, m: Memory)

  predicate ValidLoader(c: Part, l: Loader) {
    ValidPart(c) && |l.m.buffer| == c.page
  }

  function Apply(l: Loader, o: Out): (r: Loader)
    requires ValidMemory(l.m)
    ensures |r.m.flash| == |l.m.flash| && |r.m.buffer| == |l.m.buffer|
  {
    Loader(o.p, ExecAll(l.m, o.ops))
  }

  /** Parser and memory after the characters xs. */
  function Run(c: Part, l: Loader, xs: string): (r: Loader)
    requires ValidLoader(c, l)
    ensures ValidLoader(c, r) && |r.m.flash| == |l.m.flash|
    decreases |xs|
  {
    if |xs| == 0 then l else Run(c, Apply(l, Step(c, l.p, xs[0])), xs[1..])
  }

  /** The SPM operations issued while reading xs. */
  function Trace(c: Part, p: Parser, xs: string): (ops: seq<Op>)
    requires ValidPart(c)
    decreases |xs|
  {
    if |xs| == 0 then [] else var o := Step(c, p, xs[0]); o.ops + Trace(c, o.p, xs[1..])
  }

  /** State of the bootloader after reset. */
  predicate Fresh(p: Parser) {
    p.phase == WaitLine && p.base == 0 && p.pageStart == 0 && !p.dirty && p.run && !p.readMSB
  }

  lemma {:induction false} RunAppend(c: Part, l: Loader, xs: string, ys: string)
    requires ValidLoader(c, l)
    ensures Run(c, l, xs + ys) == Run(c, Run(c, l, xs), ys)
    decreases |xs|
  {
    hide Step, Apply;
    if |xs| == 0 {
      assert xs + ys == ys;
    } else {
      RunAppend(c, Apply(l, Step(c, l.p, xs[0])), xs[1..], ys);
      assert (xs + ys)[1..] == xs[1..] + ys;
    }
  }

  /** Nothing puts the run flag back up. */
  lemma RunStaysDown(c: Part, p: Parser, ch: char)
    requires ValidPart(c) && !p.run
    ensures !Step(c, p, ch).p.run
  {
  }

  /** A flush and a data word leave the line fields alone. */
  lemma FlushKeeps(c: Part, p: Parser)
    requires ValidPart(c)
    ensures var o := Flush(c, p);
            o.p == p.(pageStart := o.p.pageStart, dirty := o.p.dirty)
  {
  }

  lemma DataWordKeeps(c: Part, p: Parser, lo: byte, hi: byte)
    requires ValidPart(c)
    ensures var o := DataWord(c, p, lo, hi);
            o.p == p.(pageStart := o.p.pageStart, dirty := o.p.dirty, addr := p.addr + 2)
  {
    hide Flush;
    FlushKeeps(c, p.(dirty := true, addr := p.addr + 2));
  }
}
