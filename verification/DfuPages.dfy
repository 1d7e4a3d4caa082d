/** Programming any 64 KB page over DFU, from the request that selects the page to
    the bytes that come back; and what the status requests answer. */
module DfuPages {
  import opened Spm
  import opened Chunks
  import opened Endpoints
  import opened Dfu
  import opened DfuLoop
  import opened DfuProgramming
  import opened DfuErase

  // ----- selecting a page -----

  /** The change-base-address request for 64 KB page p. */
  function Select(p: byte): (r: Request) {
    Dnload(4, [[6, 3, 0, p]])
  }

  lemma SelectLoads(s: Dfu, p: byte)
    requires |s.data| == 5
    ensures LoadCommand(s.(dataSize := 4), [[6, 3, 0, p]]).0
            == s.(command := 6, data := [3, 0, p] + s.data[3..], dataSize := 0)
  {
    var packet: seq<byte> := [6, 3, 0, p];
    assert Tail(packet) == [3, 0, p] && Tail(packet)[..3] == [3, 0, p];
  }

  /** It sets the page and leaves the memories alone. */
  lemma SelectStep(c: Config, s: Dfu, p: byte)
    requires ValidDfu(c, s) && !s.secure && !s.waitForExit
    ensures var t := Step(c, s, Select(p)).0;
            && t.page64 == p && t.m == s.m && t.eeprom == s.eeprom && !t.secure && !t.waitForExit
            && t.state == Idled(s.state) && t.status == s.status && t.run == s.run && Step(c, s, Select(p)).1 == []
  {
    hide LoadCommand, ProgramWords, ProgramEeprom, Discard;
    SelectLoads(s, p);
  }

  /** Cells outside the pages of a range. */
  predicate Elsewhere(page: nat, base: nat, n: nat, i: nat)
    requires ValidPage(page)
  {
    i < base || i >= base + RoundUp(n, page)
  }

  lemma EndedElsewhere(m: Memory, base: nat, data: seq<byte>, i: nat)
    requires ValidMemory(m) && 0 < |data| && base + RoundUp(|data|, |m.buffer|) <= |m.flash| && i < |m.flash|
    ensures Elsewhere(|m.buffer|, base, |data|, i) ==> Ended(m, base, data)[i] == m.flash[i]
  {
    hide Offset, RoundUp;
    FirstPageFits(|data|, |m.buffer|);
  }

  lemma RequestKept(s: Dfu, t: Dfu, start: nat, data: seq<byte>, r: Request)
    requires Requested(s, start, data, r)
    requires t.m == s.m && !t.secure && !t.waitForExit && |t.data| == 5 && t.page64 == s.page64
    ensures Requested(t, start, data, r)
  {
    hide Block, Flatten, RoundUp, Offset;
  }

  /** Select a 64 KB page, then download: the data is stored there, and no cell
      outside its pages changes. */
  lemma SelectedPrograms(c: Config, s: Dfu, p: byte, start: nat, data: seq<byte>, r: Request)
    requires ValidDfu(c, s) && !s.secure && !s.waitForExit
    requires Requested(s.(page64 := p), start, data, r) && |data| < 65536
    ensures var t, base := Run(c, s, [Select(p), r]), p as nat * 65536 + start;
            && t.m == Memory(Ended(s.m, base, data), Blank(|s.m.buffer|))
            && |t.m.flash| == |s.m.flash| && base + |data| <= |t.m.flash| && t.m.flash[base..base + |data|] == data
            && forall i | 0 <= i < |s.m.flash| && Elsewhere(|s.m.buffer|, base, |data|, i) :: t.m.flash[i] == s.m.flash[i]
  {
    hide Step, Ended, Requested, ValidDfu, RoundUp, Select, Elsewhere;
    var base, t := p as nat * 65536 + start, Step(c, s, Select(p)).0;
    assert ValidMemory(s.m) && |s.data| == 5 by { ErasesFit(c, s); DataFive(c, s); }
    assert |t.data| == 5 by { DataFive(c, t); }
    SelectStep(c, s, p);
    RequestKept(s.(page64 := p), t, start, data, r);
    RequestFits(s.(page64 := p), start, data, r);
    DownloadPrograms(c, t, start, data, r);
    RunTwo(c, s, Select(p), r);
    EndedData(s.m, base, data);
    forall i | 0 <= i < |s.m.flash| && Elsewhere(|s.m.buffer|, base, |data|, i)
      ensures Ended(s.m, base, data)[i] == s.m.flash[i]
    {
      EndedElsewhere(s.m, base, data, i);
    }
  }

  lemma DataFive(c: Config, s: Dfu)
    requires ValidDfu(c, s)
    ensures |s.data| == 5
  {
  }

  lemma EndedData(m: Memory, base: nat, data: seq<byte>)
    requires ValidMemory(m) && 0 < |data| && base + RoundUp(|data|, |m.buffer|) <= |m.flash|
    ensures base + |data| <= |m.flash| && Ended(m, base, data)[base..base + |data|] == data
  {
    hide RoundUp, Offset, Ended, Cells;
    EndedCells(m, base, data);
    RoundUpGrows(|data|, |m.buffer|);
    CellsAreSlice(Ended(m, base, data), base, |data|);
  }

  lemma CellsAreSlice(f: seq<byte>, a: nat, n: nat)
    requires a + n <= |f|
    ensures Cells(f, a, n) == f[a..a + n]
  {
    forall k | 0 <= k < n ensures Cells(f, a, n)[k] == f[a..a + n][k] {
      assert Cells(f, a, n)[k] == Cell(f, a + k);
    }
  }

  lemma RepliesFour(c: Config, s: Dfu, w: Request, x: Request, y: Request, z: Request)
    requires ValidDfu(c, s)
    ensures Replies(c, s, [w, x, y, z]) == [Step(c, s, w).1] + Replies(c, Step(c, s, w).0, [x, y, z])
  {
    hide Step, ValidDfu;
    assert [w, x, y, z][1..] == [x, y, z];
  }

  /** Select, program, display, upload: the data comes back. */
  lemma SelectedReadsBack(c: Config, s: Dfu, p: byte, start: nat, data: seq<byte>, r: Request, w: nat)
    requires ValidDfu(c, s) && !s.secure && !s.waitForExit
    requires Requested(s.(page64 := p), start, data, r) && |data| < 65536
    ensures var display := Dnload(6, [Block(DISP_DATA, start, start + |data| - 1)]);
            Replies(c, s, [Select(p), r, display, Upload(w)]) == [[], [], [], data]
  {
    hide Step, Requested, ValidDfu, Replies, Select, Block;
    var t := Step(c, s, Select(p)).0;
    assert |t.data| == 5 by { DataFive(c, t); }
    SelectStep(c, s, p);
    RequestKept(s.(page64 := p), t, start, data, r);
    RequestFits(s.(page64 := p), start, data, r);
    var display := Dnload(6, [Block(DISP_DATA, start, start + |data| - 1)]);
    ProgramReadsBack(c, t, start, data, r, w);
    RepliesFour(c, s, Select(p), r, display, Upload(w));
    assert [[]] + [[], [], data] == [[], [], [], data];
  }

  // ----- status -----

  /** The states in the order of the standard (table A.1 of USB DFU 1.1 gives them the
      numbers 0 to 10), and the status codes it numbers from 0 to 5. */
  const STATES: seq<DfuState> :=
    [appIDLE, appDETACH, dfuIDLE, dfuDNLOAD_SYNC, dfuDNBUSY, dfuDNLOAD_IDLE, dfuMANIFEST_SYNC, dfuMANIFEST,
     dfuMANIFEST_WAIT_RESET, dfuUPLOAD_IDLE, dfuERROR]

  /** GETSTATE and GETSTATUS answer with the number of the state in that order, and
      GETSTATUS with the status in front of a zero timeout; CLRSTATUS and ABORT set
      one of the two each. */
  lemma StatusAnswers(c: Config, s: Dfu, w: nat)
    requires ValidDfu(c, s)
    ensures var state, status := Step(c, s, GetState(w)).1, Step(c, s, GetStatus(w)).1;
            && |state| == 1 && state[0] < 11 && STATES[state[0]] == s.state
            && status == [if s.status == OK then 0 else if s.status == errWRITE then 3 else 5, 0, 0, 0, state[0], 0]
    ensures var t := Step(c, s, ClrStatus(w)).0;
            t.status == OK && t.state == s.state && t.m == s.m && t.secure == s.secure
    ensures var t := Step(c, s, Abort(w)).0;
            t.state == dfuIDLE && t.status == s.status && t.m == s.m && t.secure == s.secure
  {
    hide Download, UploadData;
  }

  /** A locked bootloader refuses every command but READ (byte 5) and the full erase
      (bytes 4, 0, 255): memories and security stay, and the next GETSTATUS reports
      errWRITE in state dfuERROR. */
  lemma LockedAnswers(c: Config, s: Dfu, n: nat, packets: seq<seq<byte>>, w: nat)
    requires ValidDfu(c, s) && s.secure && !s.waitForExit && 0 < n < 65536 && |packets| > 0 && |packets[0]| >= 3
    requires packets[0][0] != 5 && packets[0][..3] != [4, 0, 255]
    ensures var t := Step(c, s, Dnload(n, packets)).0;
            && t.m == s.m && t.eeprom == s.eeprom && t.secure && t.run == s.run
            && Step(c, t, GetStatus(w)).1 == [3, 0, 0, 0, 10, 0]
  {
    hide Receive, MemProg, MemRead, WriteCommand, LoadCommand;
    var p, l := packets[0], LoadCommand(s.(dataSize := n), packets).0;
    LoadedHead(s.(dataSize := n), packets);
    assert p[..3] == [p[0], p[1], p[2]];
    assert ProcessCommand(c, l) == l.(state := dfuERROR, status := errWRITE);
  }

  lemma LoadedHead(s: Dfu, packets: seq<seq<byte>>)
    requires |s.data| == 5 && |packets| > 0 && |packets[0]| >= 3
    ensures var p, l := packets[0], LoadCommand(s, packets).0;
            && l.command == p[0] && l.data[0] == p[1] && l.data[1] == p[2]
            && l == s.(command := l.command, data := l.data, dataSize := l.dataSize)
  {
    var p := packets[0];
    assert Tail(p) == p[1..] && p[1..][0] == p[1] && p[1..][1] == p[2];
  }

  /** A blank check that fails: GETSTATUS reports errCHECK_ERASED in state dfuERROR,
      and the upload behind it the low 16 bits of the least used address. */
  lemma CheckAnswers(c: Config, s: Dfu, params: seq<byte>, w: nat)
    requires ValidDfu(c, s) && !s.secure && !s.waitForExit && |params| == 4 && c.pages * |s.m.buffer| <= 0x100_0000
    requires s.m.flash[..c.pages * |s.m.buffer|] != Blank(c.pages * |s.m.buffer|)
    ensures var t, boot := Step(c, s, CheckRequest(params)).0, c.pages * |s.m.buffer|;
            var a := t.page64 as nat * 65536 + t.start;
            && a < boot && s.m.flash[a] != BLANK && s.m.flash[..a] == Blank(a)
            && Step(c, t, GetStatus(w)).1 == [5, 0, 0, 0, 10, 0]
            && Step(c, t, Upload(w)).1 == [(a % 256) as byte, (a / 256 % 256) as byte]
  {
    hide Step, Blank, CheckRequest;
    CheckStep(c, s, params);
    var t := Step(c, s, CheckRequest(params)).0;
    CheckedData(c, s, params);
    ErrorReplies(c, t, w);
    AddressBytes(t.page64, t.start);
  }

  lemma CheckedData(c: Config, s: Dfu, params: seq<byte>)
    requires ValidDfu(c, s) && !s.secure && !s.waitForExit && |params| == 4
    ensures Step(c, s, CheckRequest(params)).0.data == [1] + params
  {
    hide LoadCommand, ProgramWords, ProgramEeprom, Discard, FirstUsed;
    CheckLoads(s, params);
  }

  lemma ErrorReplies(c: Config, s: Dfu, w: nat)
    requires ValidDfu(c, s) && s.state == dfuERROR && s.data[0] == 1 && s.status == errCHECK_ERASED
    ensures Step(c, s, GetStatus(w)).1 == [5, 0, 0, 0, 10, 0]
    ensures Step(c, s, Upload(w)).1 == [(s.start % 256) as byte, (s.start / 256) as byte]
  {
    hide Download, Cells;
  }

  lemma AddressBytes(page: byte, start: nat)
    requires start < 65536
    ensures var a := page as nat * 65536 + start;
            a % 256 == start % 256 && a / 256 % 256 == start / 256
  {
    var q := start / 256;
    assert start == 256 * q + start % 256;
    var a := page as nat * 65536 + start;
    assert a == 256 * (page as nat * 256 + q) + start % 256;
  }
}
