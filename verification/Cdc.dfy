/** The CDC class bootloader: AVR109 commands over byte streams, with the
    address counter that block commands advance. Modelled as built with
    NO_FLASH_BYTE_SUPPORT and NO_EEPROM_BYTE_SUPPORT, where the single byte and
    word commands are unknown commands. */
module Cdc {
  import opened Spm
  import opened Endpoints
  import opened ChipErase

  const EXIT: byte := 69
  const SET_ADDRESS: byte := 65
  const ERASE: byte := 101
  const BLOCK_WRITE: byte := 66
  const BLOCK_READ: byte := 103
  const SYNC: byte := 27
  const FLASH: byte := 70
  const EEPROM: byte := 69
  const DONE: byte := 13
  const FAILED: byte := 63

  /** Pages of the application section, and the commands whose reply is fixed by
      the part and the build, with the operand bytes each consumes. */
  datatype Config = Config(pages: nat, fixed: map<byte, (nat, seq<byte>)>)

  /** CurrAddress, RunBootloader and the memories. */
  datatype Cdc = Cdc(addr: nat, run: bool, m: Memory, eeprom: seq<byte>)

  predicate ValidCdc(s: Cdc) {
    ValidMemory(s.m) && s.addr % 2 == 0
  }

  // ----- operations -----

  /** The byte shifted left by nine in 16 bits. */
  function ShiftedNine(hi: byte): (v: nat)
    ensures v == hi as nat * 512 % 65536 && v % 2 == 0 && v <= 65024
  {
    var h := hi as nat;
    var v := if h < 128 then h * 512 else h * 512 - 65536;
    assert h * 512 == 65536 * (if h < 128 then 0 else 1) + v && v == 2 * (v / 2);
    v
  }

  /** The address a set-address command leaves: the high byte is shifted by nine
      in 16-bit signed arithmetic and then widened to 32 bits. */
  function NewAddress(hi: byte, lo: byte): (a: nat)
    ensures a % 2 == 0
  {
    var shifted := ShiftedNine(hi);
    (if shifted >= 32768 then shifted + 0xFFFF_0000 else shifted) + 2 * lo as nat
  }

  /** The counter is twice the given word address exactly below 32 KiB; its low 16
      bits always are. */
  lemma NewAddressIff(hi: byte, lo: byte)
    ensures NewAddress(hi, lo) == 2 * (256 * hi as nat + lo as nat) <==> hi < 64
    ensures NewAddress(hi, lo) % 65536 == 2 * (256 * hi as nat + lo as nat) % 65536
  {
    var h, l := hi as nat, lo as nat;
    var shifted := ShiftedNine(hi);
    assert shifted == if h < 128 then h * 512 else h * 512 - 65536;
    var next := (if shifted >= 32768 then shifted + 0xFFFF_0000 else shifted) + 2 * l;
    assert NewAddress(hi, lo) == next;
    assert next % 65536 == shifted + 2 * l == 2 * (256 * h + l) % 65536;
  }

  /** The address after n bytes of flash: it moves by whole words. */
  function BehindWords(addr: nat, n: nat): (r: nat)
    requires addr % 2 == 0
    ensures r == addr + Even(n) && r % 2 == 0
  {
    assert addr + Even(n) == 2 * (addr / 2 + n / 2);
    addr + Even(n)
  }

  /** The address after n bytes of EEPROM, each of which counts as a word. */
  function BehindBytes(addr: nat, n: nat): (r: nat)
    requires addr % 2 == 0
    ensures r == addr + 2 * n && r % 2 == 0
  {
    assert addr + 2 * n == 2 * (addr / 2 + n);
    addr + 2 * n
  }

  /** One flash block: the page of the start is erased, the whole words are
      loaded, the page is written; an odd last byte is dropped. */
  function WriteFlash(s: Cdc, bytes: seq<byte>): (r: Cdc)
    requires ValidCdc(s)
    ensures ValidCdc(r)
  {
    s.(m := Rewritten(s.m, s.addr, bytes), addr := BehindWords(s.addr, |bytes|))
  }

  /** EEPROM after the first n bytes of a block; the pointer is 16 bits wide. */
  function Stored(eeprom: seq<byte>, addr: nat, bytes: seq<byte>, n: nat): (r: seq<byte>)
    requires n <= |bytes|
    ensures |r| == |eeprom|
    decreases n
  {
    if n == 0 then eeprom
    else Poke(Stored(eeprom, addr, bytes, n - 1), (addr / 2 + n - 1) % 65536, bytes[n - 1])
  }

  function ReadCells(eeprom: seq<byte>, addr: nat, n: nat): (bs: seq<byte>)
    ensures |bs| == n
  {
    seq(n, (k: nat) => Cell(eeprom, (addr / 2 + k) % 65536))
  }

  datatype Request =
    | Exit | SetAddress(hi: byte, lo: byte) | EraseAll
    | WriteBlock(kind: byte, bytes: seq<byte>) | ReadBlock(kind: byte, count: nat)

  predicate ValidRequest(op: Request) {
    && (op.WriteBlock? ==> |op.bytes| < 65536 && (op.kind == FLASH || op.kind == EEPROM))
    && (op.ReadBlock? ==> op.count < 65536 && (op.kind == FLASH || op.kind == EEPROM))
  }

  /** The effect of an operation and the bytes of its response. */
  function Perform(c: Config, s: Cdc, op: Request): (r: (Cdc, seq<byte>))
    requires ValidCdc(s)
    ensures ValidCdc(r.0)
  {
    match op
    case Exit => (s.(run := false), [DONE])
    case SetAddress(hi, lo) => (s.(addr := NewAddress(hi, lo)), [DONE])
    case EraseAll => (s.(m := ErasedPages(s.m, c.pages)), [DONE])
    case WriteBlock(kind, bytes) =>
      (if kind == FLASH then WriteFlash(s, bytes)
       else s.(eeprom := Stored(s.eeprom, s.addr, bytes, |bytes|), addr := BehindBytes(s.addr, |bytes|)), [DONE])
    case ReadBlock(kind, count) =>
      if kind == FLASH then (s.(addr := BehindWords(s.addr, count)), Cells(s.m.flash, s.addr, count))
      else (s.(addr := BehindBytes(s.addr, count)), ReadCells(s.eeprom, s.addr, count))
  }

  // ----- the wire -----

  /** AVR109 encoding of an operation. */
  function Encode(op: Request): (bs: seq<byte>)
    requires ValidRequest(op)
  {
    match op
    case Exit => [EXIT]
    case SetAddress(hi, lo) => [SET_ADDRESS, hi, lo]
    case EraseAll => [ERASE]
    case WriteBlock(kind, bytes) =>
      [BLOCK_WRITE, (|bytes| / 256) as byte, (|bytes| % 256) as byte, kind] + bytes
    case ReadBlock(kind, count) => [BLOCK_READ, (count / 256) as byte, (count % 256) as byte, kind]
  }

  datatype Reaction = Reaction(s: Cdc, q: Queue, reply: seq<byte>)

  /** ReadWriteMemoryBlock after its command byte. */
  function BlockCommand(c: Config, s: Cdc, q: Queue, command: byte): (r: Reaction)
    requires ValidCdc(s)
    ensures ValidCdc(r.s) && |r.q.pending| <= |q.pending|
  {
    var header := FetchAll(q, 3);
    var size, kind := header.0[0] as nat * 256 + header.0[1] as nat, header.0[2];
    if kind != FLASH && kind != EEPROM then Reaction(s, header.1, [FAILED])
    else if command == BLOCK_READ then
      var o := Perform(c, s, ReadBlock(kind, size));
      Reaction(o.0, header.1, o.1)
    else
      var body := FetchAll(header.1, size);
      var o := Perform(c, s, WriteBlock(kind, body.0));
      Reaction(o.0, body.1, o.1)
  }

  /** The command dispatch of CDC_Task. */
  function React(c: Config, s: Cdc, q: Queue): (r: Reaction)
    requires ValidCdc(s)
    ensures ValidCdc(r.s) && |r.q.pending| <= |q.pending|
  {
    var first := Fetch(q);
    var command, rest := first.0, first.1;
    if command == EXIT then
      var o := Perform(c, s, Exit);
      Reaction(o.0, rest, o.1)
    else if command == SET_ADDRESS then
      var operands := FetchAll(rest, 2);
      var o := Perform(c, s, SetAddress(operands.0[0], operands.0[1]));
      Reaction(o.0, operands.1, o.1)
    else if command == ERASE then
      var o := Perform(c, s, EraseAll);
      Reaction(o.0, rest, o.1)
    else if command == BLOCK_WRITE || command == BLOCK_READ then BlockCommand(c, s, rest, command)
    else if command in c.fixed then Reaction(s, FetchAll(rest, c.fixed[command].0).1, c.fixed[command].1)
    else Reaction(s, rest, if command == SYNC then [] else [FAILED])
  }

  datatype Station = Station(s: Cdc, q: Queue, t: Sender)

  /** CDC_Task: if a packet has arrived, one command is read from it and the
      packets after it, the response is sent as one transfer, and whatever is
      left of the last packet is dropped. */
  function Task(c: Config, x: Station): (r: Station)
    requires ValidCdc(x.s)
    ensures ValidCdc(r.s) && |r.q.pending| <= |x.q.pending|
    ensures |x.q.pending| > 0 ==> |r.q.pending| < |x.q.pending|
  {
    if |x.q.pending| == 0 then x
    else
      var r := React(c, x.s, Advance(x.q));
      Station(r.s, Queue([], r.q.pending), EndTransfer(WriteAll(x.t, r.reply)))
  }

  /** The main loop until it is told to stop or nothing more arrives. */
  function Session(c: Config, x: Station): (r: Station)
    requires ValidCdc(x.s)
    ensures ValidCdc(r.s)
    decreases |x.q.pending|
  {
    if !x.s.run || |x.q.pending| == 0 then x else Session(c, Task(c, x))
  }
}
