/** Chip erase and blank check of the DFU bootloader: the commands, the requests
    that carry them, and the stale page buffer an erase can meet. */
module DfuErase {
  import opened Spm
  import opened ChipErase
  import opened Endpoints
  import opened Dfu
  import opened DfuProgramming

  // ----- the commands -----

  /** The erase command blanks the application section exactly when the page
      buffer is empty, touches nothing else and unlocks the bootloader. */
  lemma EraseCommandIff(c: Config, s: Dfu)
    requires ValidDfu(c, s) && IsErase(s) && 0 < c.pages
    ensures var t, boot := ProcessCommand(c, s), c.pages * |s.m.buffer|;
            && t == s.(m := t.m, secure := false) && BufferEmpty(t.m)
            && |t.m.flash| == |s.m.flash| && |t.m.buffer| == |s.m.buffer|
            && (t.m.flash[..boot] == Blank(boot) <==> BufferEmpty(s.m))
            && t.m.flash[boot..] == s.m.flash[boot..]
  {
    hide ErasedPages, Blank;
    EraseBlanksIff(s.m, c.pages);
  }

  lemma UsedIff(flash: seq<byte>, n: nat)
    requires n <= |flash|
    ensures FirstUsed(flash, n) == n <==> flash[..n] == Blank(n)
  {
    hide FirstUsed;
    var k := FirstUsed(flash, n);
    assert k < n ==> flash[..n][k] == flash[k];
  }

  /** A blank check reports an error exactly when some application byte is not
      0xFF, and then names the least such address. */
  lemma BlankCheckIff(c: Config, s: Dfu)
    requires ValidDfu(c, s) && !s.secure && s.command == DISP_DATA && s.data[0] == 1
    requires c.pages * |s.m.buffer| <= 0x100_0000
    ensures var t, boot := ProcessCommand(c, s), c.pages * |s.m.buffer|;
            if s.m.flash[..boot] == Blank(boot) then t == s
            else
              && t == s.(page64 := t.page64, start := t.start, state := dfuERROR, status := errCHECK_ERASED)
              && FlashAddress(t) < boot && s.m.flash[FlashAddress(t)] != BLANK
              && s.m.flash[..FlashAddress(t)] == Blank(FlashAddress(t))
  {
    hide Blank, FirstUsed;
    var boot := c.pages * |s.m.buffer|;
    UsedIff(s.m.flash, boot);
    var a := FirstUsed(s.m.flash, boot);
    if a < boot {
      SplitAddress(a);
    }
  }

  lemma SplitAddress(a: nat)
    requires a < 0x100_0000
    ensures a / 65536 < 256 && (a / 65536 % 256) * 65536 + a % 65536 == a
  {
  }

  // ----- the requests -----

  const ERASE_REQUEST := Dnload(3, [[WRITE, 0, 0xFF]])

  /** The blank check request; its address bytes are not looked at. */
  function CheckRequest(params: seq<byte>): (r: Request) {
    Dnload(6, [[DISP_DATA, 1] + params])
  }

  /** A download without data ends any programming that was under way. */
  function Idled(s: DfuState): (t: DfuState) {
    if s == dfuDNLOAD_IDLE then dfuIDLE else s
  }

  lemma EraseLoads(s: Dfu)
    requires |s.data| == 5
    ensures var l := LoadCommand(s.(dataSize := 3), [[WRITE, 0, 0xFF]]).0;
            l == s.(command := WRITE, data := [0, 0xFF] + s.data[2..], dataSize := 0)
  {
    var p: seq<byte> := [WRITE, 0, 0xFF];
    assert Tail(p) == [0, 0xFF] && Tail(p)[..2] == [0, 0xFF];
  }

  /** The erase request, in any state of the bootloader, locked or not. */
  lemma EraseStep(c: Config, s: Dfu)
    requires ValidDfu(c, s) && !s.waitForExit
    ensures var t := Step(c, s, ERASE_REQUEST).0;
            && t.m == ErasedPages(s.m, c.pages) && t.eeprom == s.eeprom && !t.secure && !t.waitForExit
            && t.state == Idled(s.state) && t.status == s.status
  {
    hide ErasedPages, LoadCommand, ProgramWords, ProgramEeprom, Discard;
    EraseLoads(s);
  }

  lemma CheckLoads(s: Dfu, params: seq<byte>)
    requires |s.data| == 5 && |params| == 4
    ensures LoadCommand(s.(dataSize := 6), CheckRequest(params).packets).0
            == s.(command := DISP_DATA, data := [1] + params, dataSize := 0)
  {
    var p := [DISP_DATA, 1] + params;
    assert Tail(p) == [1] + params && Tail(p)[..5] == Tail(p) && s.data[5..] == [];
    assert Tail(p) + [] == Tail(p);
  }

  /** The blank check request to an unlocked bootloader: an error exactly when some
      application byte is not 0xFF. */
  lemma CheckStep(c: Config, s: Dfu, params: seq<byte>)
    requires ValidDfu(c, s) && !s.secure && !s.waitForExit && |params| == 4 && c.pages * |s.m.buffer| <= 0x100_0000
    ensures var t, boot := Step(c, s, CheckRequest(params)).0, c.pages * |s.m.buffer|;
            && t.m == s.m
            && if s.m.flash[..boot] == Blank(boot) then t.state == Idled(s.state) && t.status == s.status
               else
                 && t.state == dfuERROR && t.status == errCHECK_ERASED
                 && FlashAddress(t) < boot && s.m.flash[FlashAddress(t)] != BLANK
                 && s.m.flash[..FlashAddress(t)] == Blank(FlashAddress(t))
  {
    hide LoadCommand, ProcessCommand, Blank, ProgramWords, ProgramEeprom, Discard;
    CheckLoads(s, params);
    BlankCheckIff(c, s.(command := DISP_DATA, data := [1] + params, dataSize := 0));
  }

  /** Erase, then blank check: the device ends in error exactly when the page buffer
      was not empty, or it already was in error, which neither request clears. */
  lemma EraseThenCheckIff(c: Config, s: Dfu, params: seq<byte>)
    requires ValidDfu(c, s) && !s.waitForExit && 0 < c.pages
    requires |params| == 4 && c.pages * |s.m.buffer| <= 0x100_0000
    ensures Run(c, s, [ERASE_REQUEST, CheckRequest(params)]).state == dfuERROR
            <==> s.state == dfuERROR || !BufferEmpty(s.m)
  {
    hide Step, ErasedPages, Blank, ValidDfu, CheckRequest;
    var t := Step(c, s, ERASE_REQUEST).0;
    assert ValidMemory(s.m) && c.pages * |s.m.buffer| <= |s.m.flash| by { ErasesFit(c, s); }
    EraseStep(c, s);
    EraseBlanksIff(s.m, c.pages);
    CheckStep(c, t, params);
    RunTwo(c, s, ERASE_REQUEST, CheckRequest(params));
  }

  lemma ErasesFit(c: Config, s: Dfu)
    requires ValidDfu(c, s)
    ensures |s.m.buffer| > 0 && ValidMemory(s.m) && c.pages * |s.m.buffer| <= |s.m.flash|
  {
  }

  lemma RunTwo(c: Config, s: Dfu, x: Request, y: Request)
    requires ValidDfu(c, s)
    ensures Run(c, s, [x, y]) == Step(c, Step(c, s, x).0, y).0
  {
    hide Step, ValidDfu;
    var t := Step(c, s, x).0;
    assert [x, y][1..] == [y] && [y][1..] == [];
    assert Run(c, t, [y]) == Run(c, Step(c, t, y).0, []);
  }

  // ----- a stale page buffer -----

  /** A download whose host goes away after the first word. */
  function Abandoned(w: nat, start: nat, end: nat, filler: seq<byte>, x: byte, y: byte): (r: Request)
    requires start < 65536 && end < 65536
  {
    Dnload(w, [Block(PROG_START, start, end) + filler, [x, y]])
  }

  lemma OneWord(m: Memory, base: nat, x: byte, y: byte, words: nat)
    requires ValidMemory(m) && |m.buffer| > 2 && words >= 2
    ensures ProgramWords(Cursor(m, Queue([], [[x, y]]), base, base, 0), words).k.m == Fill(m, base, x, y)
    ensures !ProgramWords(Cursor(m, Queue([], [[x, y]]), base, base, 0), words).complete
  {
    hide Fill, Erase, Write;
    var k := Cursor(m, Queue([], [[x, y]]), base, base, 0);
    var ready := k.(q := Advance(k.q));
    assert [[x, y]][1..] == [] && Tail(Tail([x, y])) == [];
    var next := ProgramWord(ready, words - 1);
    assert next.q == Queue([], []) && next.m == Fill(m, base, x, y);
    assert ProgramWords(k, words) == ProgramWords(next, words - 1) == Outcome(next, false);
  }

  /** It leaves its word in the page buffer. */
  lemma AbandonedStep(c: Config, s: Dfu, w: nat, start: nat, end: nat, filler: seq<byte>, x: byte, y: byte)
    requires ValidDfu(c, s) && !s.secure && !s.waitForExit && BufferEmpty(s.m) && |s.m.buffer| > 2
    requires 6 < w < 65536 && 3 <= end - start < 65535 && end < 65536 && start % PACKET == 0 && |filler| == FILLER
    requires Aligned(s.page64 as nat * 65536 + start, |s.m.buffer|)
    ensures var t, page := Step(c, s, Abandoned(w, start, end, filler, x, y)).0, |s.m.buffer|;
            && t.m == Memory(Erase(s.m, s.page64 as nat * 65536 + start).flash, [x, y] + Blank(page - 2))
            && !t.secure && !t.waitForExit
  {
    hide Erase, Block, Receive, Aligned, DownloadPackets;
    var r, base := Abandoned(w, start, end, filler, x, y), s.page64 as nat * 65536 + start;
    var s1, packets := s.(dataSize := w), r.packets;
    StepDownloads(c, s, r);
    assert packets[0][6..] == filler && packets[1..] == [[x, y]];
    CommandOpens(c, s1, start, end, packets);
    BlockHead(start, end);
    AbandonedReceive(Opening(s1, start, end), base, filler, x, y);
    FilledBlank(Erase(s.m, base), base, x, y);
  }

  lemma AbandonedReceive(u: Dfu, base: nat, filler: seq<byte>, x: byte, y: byte)
    requires ValidMemory(u.m) && |u.m.buffer| > 2 && |u.data| == 5 && u.data[0] == 0 && u.dataSize > 0
    requires 3 <= u.end - u.start < 65535 && u.end < 65536 && u.start % PACKET == 0 && FlashAddress(u) == base && |filler| == FILLER
    ensures Receive(u, Queue(filler, [[x, y]])) == u.(m := Fill(u.m, base, x, y))
  {
    hide ProgramWords, ProgramEeprom, Discard, Fill;
    var q := Queue([], [[x, y]]);
    DiscardBank(filler, [[x, y]]);
    DiscardInside(q, 0);
    assert q.bank[0..] == q.bank;
    assert (u.end - u.start + 1) % 65536 == u.end - u.start + 1;
    OneWord(u.m, base, x, y, (u.end - u.start + 1) % 65536 / 2);
  }

  lemma FilledBlank(m: Memory, base: nat, x: byte, y: byte)
    requires ValidMemory(m) && BufferEmpty(m) && Aligned(base, |m.buffer|)
    ensures Fill(m, base, x, y) == m.(buffer := [x, y] + Blank(|m.buffer| - 2))
  {
    hide Offset;
    FillAt(m, base, 0, x, y);
    assert Blank(|m.buffer|)[0 := x][1 := y] == [x, y] + Blank(|m.buffer| - 2);
  }

  /** An abandoned download followed by an erase: the word that never reached its
      page is programmed into page 0, on a device that reports itself erased. */
  lemma StaleWordSurvivesErase(c: Config, s: Dfu, w: nat, start: nat, end: nat, filler: seq<byte>, x: byte, y: byte)
    requires ValidDfu(c, s) && !s.secure && !s.waitForExit && BufferEmpty(s.m) && |s.m.buffer| > 2 && 0 < c.pages
    requires 6 < w < 65536 && 3 <= end - start < 65535 && end < 65536 && start % PACKET == 0 && |filler| == FILLER
    requires Aligned(s.page64 as nat * 65536 + start, |s.m.buffer|)
    ensures var t, boot := Run(c, s, [Abandoned(w, start, end, filler, x, y), ERASE_REQUEST]), c.pages * |s.m.buffer|;
            2 < boot <= |t.m.flash| && t.m.flash[..boot] == [x, y] + Blank(boot - 2)
  {
    hide Step, ErasedPages, Put, Erase, Aligned, Abandoned;
    var r, page := Abandoned(w, start, end, filler, x, y), |s.m.buffer|;
    assert c.pages * page == page + (c.pages - 1) * page;
    AbandonedStep(c, s, w, start, end, filler, x, y);
    var t := Step(c, s, r).0;
    EraseStep(c, t);
    ErasedPagesExact(t.m, c.pages);
    var data := t.m.buffer + Blank((c.pages - 1) * page);
    PutRead(t.m.flash, 0, data);
    assert data == [x, y] + Blank(c.pages * page - 2);
    RunTwo(c, s, r, ERASE_REQUEST);
  }
}
