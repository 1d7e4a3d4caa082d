/** The DFU class bootloader: the request state machine with its vendor command
    layer, the programming loop over the packets of a download, and read-back. */
module Dfu {
  import opened Spm
  import opened ChipErase
  import opened Endpoints

  datatype DfuState =
    | appIDLE | appDETACH | dfuIDLE | dfuDNLOAD_SYNC | dfuDNBUSY | dfuDNLOAD_IDLE
    | dfuMANIFEST_SYNC | dfuMANIFEST | dfuMANIFEST_WAIT_RESET | dfuUPLOAD_IDLE | dfuERROR

  datatype Status = OK | errWRITE | errCHECK_ERASED

  const PROG_START: byte := 1
  const DISP_DATA: byte := 3
  const WRITE: byte := 4
  const READ: byte := 5
  const CHANGE_BASE: byte := 6

  const FILLER: nat := 26
  const PACKET: nat := 32
  const SUFFIX: nat := 16

  /** Pages of the application section, and the bytes the READ command looks up. */
  datatype Config = Config(pages: nat, info: (byte, byte) -> byte)

  /** The bootloader's globals, with `command`, `data` and `dataSize` of
      SentCommand, and the memories of the part. */
  datatype Dfu = Dfu(
    secure: bool, run: bool, waitForExit: bool, state: DfuState, status: Status,
    command: byte, data: seq<byte>, dataSize: nat, response: byte, page64: byte, start: nat, end: nat,
    m: Memory, eeprom: seq<byte>)

  predicate ValidDfu(c: Config, s: Dfu) {
    && ValidMemory(s.m) && |s.data| == 5 && s.start < 65536 && s.end < 65536
    && c.pages * |s.m.buffer| <= |s.m.flash|
  }

  // ----- the OUT endpoint -----

  /** Reading an empty endpoint returns nothing useful: zero here. */
  function Head(bank: seq<byte>): (b: byte) {
    if |bank| == 0 then 0 else bank[0]
  }

  function Tail(bank: seq<byte>): (r: seq<byte>) {
    if |bank| == 0 then [] else bank[1..]
  }

  /** DiscardFillerBytes: a round that finds the bank empty fetches a packet but
      discards nothing; without a packet it gives up. */
  function Discard(q: Queue, n: nat): (r: Queue)
    decreases n
  {
    if n == 0 then q
    else if |q.bank| > 0 then Discard(Queue(q.bank[1..], q.pending), n - 1)
    else if |q.pending| == 0 then Queue([], [])
    else Discard(Advance(q), n - 1)
  }

  // ----- programming -----

  /** Where the programming loop is: next word, start of the open page and the
      words loaded into it. */
  datatype Cursor = Cursor(m: Memory, q: Queue, addr: nat, pageStart: nat, inPage: nat)

  datatype Outcome = Outcome(k: Cursor, complete: bool)

  /** One word of the loop, `left` words still to come after it. */
  function ProgramWord(k: Cursor, left: nat): (r: Cursor)
    requires ValidMemory(k.m)
    ensures |r.m.buffer| == |k.m.buffer| && |r.m.flash| == |k.m.flash|
  {
    var rest := Tail(k.q.bank);
    var filled := Fill(k.m, k.addr, Head(k.q.bank), Head(rest));
    var next := k.(q := k.q.(bank := Tail(rest)), addr := k.addr + 2, inPage := k.inPage + 1);
    if 2 * next.inPage != |k.m.buffer| && left > 0 then next.(m := filled)
    else
      var written := Write(filled, k.pageStart);
      if left > 0 then next.(m := Erase(written, next.addr), pageStart := next.addr, inPage := 0)
      else next.(m := written)
  }

  function ProgramWords(k: Cursor, words: nat): (r: Outcome)
    requires ValidMemory(k.m)
    ensures |r.k.m.buffer| == |k.m.buffer| && |r.k.m.flash| == |k.m.flash|
    decreases words
  {
    if words == 0 then Outcome(k, true)
    else if |k.q.bank| == 0 && |k.q.pending| == 0 then Outcome(k, false)
    else
      var ready := if |k.q.bank| == 0 then k.(q := Advance(k.q)) else k;
      ProgramWords(ProgramWord(ready, words - 1), words - 1)
  }

  lemma ProgramWordsStep(k: Cursor, words: nat)
    requires ValidMemory(k.m) && words > 0
    ensures ProgramWords(k, words)
            == if |k.q.bank| == 0 && |k.q.pending| == 0 then Outcome(k, false)
               else var ready := if |k.q.bank| == 0 then k.(q := Advance(k.q)) else k;
                    ProgramWords(ProgramWord(ready, words - 1), words - 1)
  {
  }

  lemma ProgramWordsEnd(k: Cursor)
    requires ValidMemory(k.m)
    ensures ProgramWords(k, 0) == Outcome(k, true)
  {
  }

  datatype EepromOutcome = EepromOutcome(eeprom: seq<byte>, start: nat, complete: bool)

  /** The EEPROM loop; an address past the end has no effect. */
  function ProgramEeprom(eeprom: seq<byte>, q: Queue, start: nat, left: nat): (r: EepromOutcome)
    requires start < 65536
    ensures |r.eeprom| == |eeprom| && r.start < 65536
    decreases left
  {
    if left == 0 then EepromOutcome(eeprom, start, true)
    else if |q.bank| == 0 && |q.pending| == 0 then EepromOutcome(eeprom, start, false)
    else
      var r := if |q.bank| == 0 then Advance(q) else q;
      var e := if start < |eeprom| then eeprom[start := Head(r.bank)] else eeprom;
      ProgramEeprom(e, r.(bank := Tail(r.bank)), (start + 1) % 65536, left - 1)
  }

  // ----- commands -----

  /** 16-bit address joined with the 64 KB page number. */
  function FlashAddress(s: Dfu): (a: nat) {
    s.page64 as nat * 65536 + s.start
  }

  /** LoadStartEndAddresses: high byte first. */
  function LoadAddresses(s: Dfu): (r: Dfu)
    requires |s.data| == 5
  {
    s.(start := Word(s.data[1], s.data[2]), end := Word(s.data[3], s.data[4]))
  }

  function MemProg(s: Dfu): (r: Dfu)
    requires ValidMemory(s.m) && |s.data| == 5
  {
    if s.data[0] != 0 && s.data[0] != 1 then s
    else
      var t := LoadAddresses(s);
      var erased := if s.data[0] == 0 then t.(m := Erase(t.m, FlashAddress(t))) else t;
      erased.(state := dfuDNLOAD_IDLE)
  }

  /** The least address below n that is not blank, or n. */
  function FirstUsed(flash: seq<byte>, n: nat): (k: nat)
    requires n <= |flash|
    ensures k <= n && flash[..k] == Blank(k) && (k < n ==> flash[k] != BLANK)
  {
    if n == 0 then 0
    else
      var k := FirstUsed(flash, n - 1);
      if k < n - 1 then k
      else if flash[n - 1] != BLANK then n - 1
      else assert flash[..n] == flash[..n - 1] + [flash[n - 1]]; n
  }

  function MemRead(c: Config, s: Dfu): (r: Dfu)
    requires ValidDfu(c, s)
  {
    if s.data[0] == 0 || s.data[0] == 2 then LoadAddresses(s).(state := dfuUPLOAD_IDLE)
    else if s.data[0] == 1 then
      var boot := c.pages * |s.m.buffer|;
      var a := FirstUsed(s.m.flash, boot);
      if a == boot then s
      else s.(page64 := (a / 65536 % 256) as byte, start := a % 65536, state := dfuERROR, status := errCHECK_ERASED)
    else s
  }

  predicate IsErase(s: Dfu)
    requires |s.data| == 5
  {
    s.command == WRITE && s.data[0] == 0 && s.data[1] == 0xFF
  }

  function WriteCommand(c: Config, s: Dfu): (r: Dfu)
    requires ValidDfu(c, s)
  {
    if s.data[0] == 3 then
      s.(waitForExit := true, run := s.run && (s.dataSize > 0 || s.data[1] == 0))
    else if s.data[0] == 0 && s.data[1] == 0xFF then
      s.(m := ErasedPages(s.m, c.pages), secure := false)
    else s
  }

  /** ProcessBootloaderCommand: in secure mode only erase and READ get through. */
  function ProcessCommand(c: Config, s: Dfu): (r: Dfu)
    requires ValidDfu(c, s)
    ensures ValidDfu(c, r)
  {
    if s.secure && !(IsErase(s) || s.command == READ) then s.(state := dfuERROR, status := errWRITE)
    else if s.command == PROG_START then MemProg(s)
    else if s.command == DISP_DATA then MemRead(c, s)
    else if s.command == WRITE then WriteCommand(c, s)
    else if s.command == READ then
      if s.data[0] <= 1 then s.(response := c.info(s.data[0], s.data[1])) else s
    else if s.command == CHANGE_BASE && s.data[0] == 3 && s.data[1] == 0 then s.(page64 := s.data[2])
    else s
  }

  // ----- requests -----

  datatype Request =
    | Dnload(wLength: nat, packets: seq<seq<byte>>)
    | Upload(wLength: nat) | GetStatus(wLength: nat) | ClrStatus(wLength: nat) | GetState(wLength: nat)
    | Abort(wLength: nat) | Unknown(wLength: nat) | NotForUs

  /** The first n parameter bytes of the packet stored over the old ones. */
  function LoadParameters(data: seq<byte>, bank: seq<byte>, n: nat): (r: seq<byte>)
    requires |data| == 5 && n <= 5 && n <= |bank|
    ensures |r| == 5
  {
    bank[..n] + data[n..]
  }

  function Min(a: nat, b: nat): (r: nat) {
    if a < b then a else b
  }

  /** Command byte and up to five parameters from the first packet. */
  function LoadCommand(s: Dfu, packets: seq<seq<byte>>): (r: (Dfu, Queue))
    requires |s.data| == 5 && |packets| > 0
    ensures |r.0.data| == 5 && r.0.m == s.m && r.0.start == s.start && r.0.end == s.end
  {
    var bank := Tail(packets[0]);
    var n := Min(5, |bank|);
    (s.(command := Head(packets[0]), data := LoadParameters(s.data, bank, n), dataSize := (s.dataSize - 1 - n) % 65536),
     Queue(bank[n..], packets[1..]))
  }

  /** The data phase of a download in dfuDNLOAD_IDLE. */
  function Receive(s: Dfu, q: Queue): (r: Dfu)
    requires ValidMemory(s.m) && |s.data| == 5 && s.start < 65536
    ensures |r.data| == 5 && |r.m.buffer| == |s.m.buffer| && |r.m.flash| == |s.m.flash|
  {
    if s.dataSize == 0 then s.(state := dfuIDLE)
    else
      var ready := Discard(Discard(q, FILLER), s.start % PACKET);
      var bytes := (s.end - s.start + 1) % 65536;
      if s.data[0] == 0 then
        var a := FlashAddress(s);
        var o := ProgramWords(Cursor(s.m, ready, a, a, 0), bytes / 2);
        if o.complete then s.(m := o.k.m, start := s.end) else s.(m := o.k.m)
      else
        var o := ProgramEeprom(s.eeprom, ready, s.start, bytes);
        s.(eeprom := o.eeprom, start := o.start)
  }

  function Download(c: Config, s: Dfu, packets: seq<seq<byte>>): (r: Dfu)
    requires ValidDfu(c, s)
    ensures ValidDfu(c, r)
  {
    var t := if s.waitForExit then ProcessCommand(c, s).(waitForExit := false) else s;
    if t.dataSize == 0 then
      if t.state == dfuDNLOAD_IDLE then t.(state := dfuIDLE) else t
    else if |packets| == 0 then t
    else DownloadPackets(c, t, packets)
  }

  /** A download with a data stage: a command, then the data it announces. */
  function DownloadPackets(c: Config, s: Dfu, packets: seq<seq<byte>>): (r: Dfu)
    requires ValidDfu(c, s) && |packets| > 0
    ensures ValidDfu(c, r)
  {
    var loaded := LoadCommand(s, packets);
    var u := ProcessCommand(c, loaded.0);
    if u.state == dfuDNLOAD_IDLE then Receive(u, loaded.1) else u
  }

  function UploadData(s: Dfu): (r: (Dfu, seq<byte>))
    requires |s.data| == 5 && s.start < 65536
  {
    var bytes := (s.end - s.start + 1) % 65536;
    if s.state != dfuUPLOAD_IDLE then
      (s, if s.state == dfuERROR && s.data[0] == 1 then [(s.start % 256) as byte, (s.start / 256) as byte]
          else [s.response])
    else if s.data[0] == 0 then
      (s.(start := s.end, state := dfuIDLE), Cells(s.m.flash, FlashAddress(s), bytes / 2 * 2))
    else if s.data[0] == 2 then
      (s.(start := (s.start + bytes) % 65536, state := dfuIDLE), Cells(s.eeprom, s.start, bytes))
    else (s.(state := dfuIDLE), [])
  }

  function StateNumber(s: DfuState): (n: byte) {
    match s
    case appIDLE => 0
    case appDETACH => 1
    case dfuIDLE => 2
    case dfuDNLOAD_SYNC => 3
    case dfuDNBUSY => 4
    case dfuDNLOAD_IDLE => 5
    case dfuMANIFEST_SYNC => 6
    case dfuMANIFEST => 7
    case dfuMANIFEST_WAIT_RESET => 8
    case dfuUPLOAD_IDLE => 9
    case dfuERROR => 10
  }

  function StatusNumber(s: Status): (n: byte) {
    match s
    case OK => 0
    case errWRITE => 3
    case errCHECK_ERASED => 5
  }

  /** EVENT_USB_Device_ControlRequest: the new state and the bytes sent back. */
  function Step(c: Config, s: Dfu, r: Request): (o: (Dfu, seq<byte>))
    requires ValidDfu(c, s)
    ensures ValidDfu(c, o.0)
  {
    if r.NotForUs? then (s, [])
    else
      var t := s.(dataSize := r.wLength % 65536);
      match r
      case Dnload(_, packets) => (Download(c, t, packets), [])
      case Upload(_) => UploadData(t)
      case GetStatus(_) => (t, [StatusNumber(t.status), 0, 0, 0, StateNumber(t.state), 0])
      case ClrStatus(_) => (t.(status := OK), [])
      case GetState(_) => (t, [StateNumber(t.state)])
      case Abort(_) => (t.(state := dfuIDLE), [])
      case Unknown(_) => (t, [])
  }

  function Run(c: Config, s: Dfu, rs: seq<Request>): (r: Dfu)
    requires ValidDfu(c, s)
    ensures ValidDfu(c, r)
    decreases |rs|
  {
    if |rs| == 0 then s else Run(c, Step(c, s, rs[0]).0, rs[1..])
  }

  /** What the host receives over a run. */
  function Replies(c: Config, s: Dfu, rs: seq<Request>): (r: seq<seq<byte>>)
    requires ValidDfu(c, s)
    decreases |rs|
  {
    if |rs| == 0 then [] else var o := Step(c, s, rs[0]); [o.1] + Replies(c, o.0, rs[1..])
  }
}
