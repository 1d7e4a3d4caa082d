/** Programming flash over DFU: filler, the download request, and reading back. */
module DfuProgramming {
  import opened Spm
  import opened Chunks
  import opened Endpoints
  import opened Dfu
  import opened DfuLoop

  // ----- the requests -----

  /** The command block of PROG_START or DISP_DATA for flash from start to end. */
  function Block(command: byte, start: nat, end: nat): (b: seq<byte>)
    requires start < 65536 && end < 65536
    ensures |b| == 6
  {
    [command, 0, (start / 256) as byte, (start % 256) as byte, (end / 256) as byte, (end % 256) as byte]
  }

  /** A download of `data` to [start, start + |data|), up to a whole 64 KB bank: the
      command block and its filler fill the first packet; data and suffix follow
      in packets of whole words, however they are cut. */
  predicate Requested(s: Dfu, start: nat, data: seq<byte>, r: Request) {
    && !s.secure && !s.waitForExit && ValidMemory(s.m) && |s.data| == 5
    && 0 < |data| && |data| % 2 == 0 && start + |data| <= 65536
    && start % PACKET == 0 && Aligned(s.page64 as nat * 65536 + start, |s.m.buffer|)
    && s.page64 as nat * 65536 + start + RoundUp(|data|, |s.m.buffer|) <= |s.m.flash|
    && r.Dnload? && 6 < r.wLength < 65536 && |r.packets| > 0
    && |r.packets[0]| == PACKET && r.packets[0][..6] == Block(PROG_START, start, start + |data| - 1)
    && (forall p | p in r.packets[1..] :: |p| > 0 && |p| % 2 == 0)
    && data <= Flatten(r.packets[1..])
  }

  lemma BlockWords(command: byte, start: nat, end: nat)
    requires start < 65536 && end < 65536
    ensures var b := Block(command, start, end);
            Word(b[2], b[3]) == start && Word(b[4], b[5]) == end
  {
  }

  /** What reading the first packet stores. */
  lemma LoadedBlock(s: Dfu, packets: seq<seq<byte>>, b: seq<byte>)
    requires |s.data| == 5 && |packets| > 0 && |b| == 6 && b <= packets[0]
    ensures var l := LoadCommand(s, packets);
            && l.0 == s.(command := b[0], data := b[1..], dataSize := (s.dataSize - 6) % 65536)
            && l.1 == Queue(packets[0][6..], packets[1..])
  {
    var p := packets[0];
    assert Tail(p)[..5] == b[1..] && Tail(p)[5..] == p[6..];
    assert b[1..] + s.data[5..] == b[1..];
  }

  lemma {:induction false} DiscardBank(bank: seq<byte>, pending: seq<seq<byte>>)
    ensures Discard(Queue(bank, pending), |bank|) == Queue([], pending)
    decreases |bank|
  {
    if |bank| > 0 {
      DiscardBank(bank[1..], pending);
    }
  }

  /** A round that finds the bank empty skips nothing, so filler is skipped in full
      exactly when it lies within the current packet. */
  lemma FillerSkippedIff(q: Queue, n: nat)
    requires n <= |Supply(q)|
    ensures Supply(Discard(q, n)) == Supply(q)[n..] <==> n <= |q.bank|
  {
    if n <= |q.bank| {
      DiscardInside(q, n);
      assert Supply(q)[n..] == q.bank[n..] + Flatten(q.pending);
    } else {
      DiscardFallsShort(q, n);
    }
  }

  lemma {:induction false} DiscardFallsShort(q: Queue, n: nat)
    requires n <= |Supply(q)|
    ensures |Supply(Discard(q, n))| + n >= |Supply(q)| + (if n <= |q.bank| then 0 else 1)
    decreases n
  {
    if n > 0 {
      if |q.bank| > 0 {
        DiscardFallsShort(Queue(q.bank[1..], q.pending), n - 1);
      } else {
        assert Supply(Advance(q)) == Supply(q);
        DiscardFallsShort(Advance(q), n - 1);
      }
    }
  }

  lemma {:induction false} DiscardInside(q: Queue, n: nat)
    requires n <= |q.bank|
    ensures Discard(q, n) == Queue(q.bank[n..], q.pending)
    decreases n
  {
    if n > 0 {
      DiscardInside(Queue(q.bank[1..], q.pending), n - 1);
      assert q.bank[1..][n - 1..] == q.bank[n..];
    }
  }

  /** The state right before the programming loop. */
  lemma CommandErases(c: Config, s: Dfu, start: nat, end: nat)
    requires ValidDfu(c, s) && !s.secure && start < 65536 && end < 65536
    requires s.command == PROG_START && s.data == Block(PROG_START, start, end)[1..]
    ensures ProcessCommand(c, s)
            == s.(start := start, end := end, state := dfuDNLOAD_IDLE,
                  m := Erase(s.m, s.page64 as nat * 65536 + start))
  {
    hide Erase;
    BlockWords(PROG_START, start, end);
  }

  /** The data phase: filler and alignment dropped, then the loop. */
  lemma ReceivePrograms(u: Dfu, m: Memory, base: nat, data: seq<byte>, filler: seq<byte>, rest: seq<seq<byte>>)
    requires ValidMemory(m) && Aligned(base, |m.buffer|) && u.m == Erase(m, base)
    requires base + RoundUp(|data|, |m.buffer|) <= |m.flash| && FlashAddress(u) == base
    requires |u.data| == 5 && u.data[0] == 0 && u.dataSize > 0 && u.start < 65536 && u.start % PACKET == 0
    requires 0 < |data| < 65536 && |data| % 2 == 0 && u.end == u.start + |data| - 1
    requires |filler| == FILLER && WholeWords(Queue([], rest)) && data <= Flatten(rest)
    ensures Receive(u, Queue(filler, rest))
            == u.(m := Memory(Ended(m, base, data), Blank(|m.buffer|)), start := u.end)
  {
    hide Erase, ProgramWords, Ended, Discard, Flatten, RoundUp, ProgramEeprom;
    var n, q := |data|, Queue([], rest);
    DiscardBank(filler, rest);
    DiscardInside(q, 0);
    assert q.bank[0..] == [];
    assert Supply(q) == Flatten(rest) && [] + Supply(q)[..n] == data;
    assert 2 * (n / 2) == n && (u.end - u.start + 1) % 65536 == n;
    FirstPageLoop(Cursor(u.m, q, base, base, 0), m, base, [], n / 2);
  }

  /** What a PROG_START command for flash leaves for the data phase. */
  function Opening(s: Dfu, start: nat, end: nat): (u: Dfu)
    requires ValidMemory(s.m) && start < 65536 && end < 65536
  {
    s.(command := PROG_START, data := Block(PROG_START, start, end)[1..], dataSize := (s.dataSize - 6) % 65536,
       start := start, end := end, state := dfuDNLOAD_IDLE, m := Erase(s.m, s.page64 as nat * 65536 + start))
  }

  /** A download that starts with such a command goes on with its data phase. */
  lemma CommandOpens(c: Config, s: Dfu, start: nat, end: nat, packets: seq<seq<byte>>)
    requires ValidDfu(c, s) && !s.secure && start < 65536 && end < 65536
    requires |packets| > 0 && Block(PROG_START, start, end) <= packets[0]
    ensures DownloadPackets(c, s, packets) == Receive(Opening(s, start, end), Queue(packets[0][6..], packets[1..]))
  {
    hide Erase, ProcessCommand, LoadCommand, Block, Receive;
    LoadedBlock(s, packets, Block(PROG_START, start, end));
    BlockCommand(start, end);
    CommandErases(c, LoadCommand(s, packets).0, start, end);
  }

  lemma StepDownloads(c: Config, s: Dfu, r: Request)
    requires ValidDfu(c, s) && !s.waitForExit && r.Dnload? && 0 < r.wLength < 65536 && |r.packets| > 0
    ensures Step(c, s, r).0 == DownloadPackets(c, s.(dataSize := r.wLength), r.packets)
  {
    hide DownloadPackets;
  }

  /** A page-aligned even range of less than 64 KiB, in any 64 KB page: exactly the
      data is stored, and behind a range of less than a page what the page buffer
      still held. */
  lemma DownloadPrograms(c: Config, s: Dfu, start: nat, data: seq<byte>, r: Request)
    requires ValidDfu(c, s) && Requested(s, start, data, r) && |data| < 65536
    ensures var end, base := start + |data| - 1, s.page64 as nat * 65536 + start;
            var t := Step(c, s, r).0;
            && t.m == Memory(Ended(s.m, base, data), Blank(|s.m.buffer|))
            && t.eeprom == s.eeprom && t.page64 == s.page64 && !t.secure && !t.waitForExit
            && t.state == dfuDNLOAD_IDLE && t.start == end && t.end == end
  {
    hide Erase, Ended, Flatten, RoundUp, Block, Receive, Aligned, DownloadPackets;
    var end, base := start + |data| - 1, s.page64 as nat * 65536 + start;
    var s1, rest := s.(dataSize := r.wLength), r.packets[1..];
    StepDownloads(c, s, r);
    CommandOpens(c, s1, start, end, r.packets);
    BlockHead(start, end);
    ReceivePrograms(Opening(s1, start, end), s.m, base, data, r.packets[0][6..], rest);
  }

  lemma BlockHead(start: nat, end: nat)
    requires start < 65536 && end < 65536
    ensures Block(PROG_START, start, end)[1..][0] == 0 && Block(DISP_DATA, start, end)[1..][0] == 0
  {
  }

  /** The 16-bit byte count wraps for a whole 64 KB bank. */
  lemma ReceiveNothing(u: Dfu, q: Queue)
    requires ValidMemory(u.m) && |u.data| == 5 && u.data[0] == 0 && u.start == 0 && u.end == 65535 && u.dataSize > 0
    ensures Receive(u, q).m == u.m
  {
    hide Discard;
    var ready := Discard(Discard(q, FILLER), 0);
    assert ProgramWords(Cursor(u.m, ready, FlashAddress(u), FlashAddress(u), 0), 0).k.m == u.m;
  }

  /** A download of a whole 64 KB bank erases its first page and programs nothing. */
  lemma WholeBankOnlyErases(c: Config, s: Dfu, data: seq<byte>, r: Request)
    requires ValidDfu(c, s) && Requested(s, 0, data, r) && |data| == 65536
    ensures Step(c, s, r).0.m == Erase(s.m, s.page64 as nat * 65536)
  {
    hide Erase, Flatten, RoundUp, Block, Receive, Aligned, DownloadPackets;
    var s1 := s.(dataSize := r.wLength);
    StepDownloads(c, s, r);
    CommandOpens(c, s1, 0, 65535, r.packets);
    BlockHead(0, 65535);
    ReceiveNothing(Opening(s1, 0, 65535), Queue(r.packets[0][6..], r.packets[1..]));
  }

  /** Storing x is storing the longer y exactly when the cells of y come out right. */
  lemma PutIs(f: seq<byte>, p: nat, x: seq<byte>, y: seq<byte>)
    requires p + |y| <= |f| && |x| <= |y|
    ensures Put(f, p, x) == Put(f, p, y) <==> Put(f, p, x)[p..p + |y|] == y
  {
    var g := Put(f, p, x);
    if g[p..p + |y|] == y {
      forall k | p <= k < p + |y| ensures g[k] == y[k - p] {
        assert g[k] == g[p..p + |y|][k - p];
      }
      assert g == Put(f, p, y);
    } else {
      PutRead(f, p, y);
    }
  }

  /** What keeps a page-aligned even range from ending as programmed: nothing if it
      fills at least a page and is shorter than 64 KiB. A shorter one needs a page
      buffer that was empty behind it; a whole bank needs an empty buffer and data
      that, padded to whole pages, is what erasing the first page left there. */
  predicate Undisturbed(m: Memory, base: nat, data: seq<byte>)
    requires ValidMemory(m) && base + RoundUp(|data|, |m.buffer|) <= |m.flash|
  {
    var page := |m.buffer|;
    if |data| < 65536 then |data| >= page || m.buffer[|data|..] == Blank(page - |data|)
    else
      var padded := data + Blank(RoundUp(|data|, page) - |data|);
      BufferEmpty(m) && Erase(m, base).flash[base..base + |padded|] == padded
  }

  lemma DownloadProgramsIff(c: Config, s: Dfu, start: nat, data: seq<byte>, r: Request)
    requires ValidDfu(c, s) && Requested(s, start, data, r)
    ensures var page, base := |s.m.buffer|, s.page64 as nat * 65536 + start;
            Step(c, s, r).0.m == Memory(Programmed(s.m.flash, page, base, data), Blank(page))
            <==> Undisturbed(s.m, base, data)
  {
    hide Step, Block, Flatten, RoundUp, Put, Offset, Programmed, Ended, Erase, Aligned;
    var page, base := |s.m.buffer|, s.page64 as nat * 65536 + start;
    var padded := data + Blank(RoundUp(|data|, page) - |data|);
    ProgrammedIsPut(s.m.flash, page, base, data);
    FirstPageFits(|data|, page);
    if |data| < 65536 {
      DownloadPrograms(c, s, start, data, r);
      EndedIff(s.m, base, data);
    } else {
      WholeBankOnlyErases(c, s, data, r);
      ErasedIsPut(s.m, base);
      PutIs(s.m.flash, base, Blank(page), padded);
    }
  }

  lemma EndedIff(m: Memory, base: nat, data: seq<byte>)
    requires ValidMemory(m) && 0 < |data| && base + RoundUp(|data|, |m.buffer|) <= |m.flash|
    ensures Ended(m, base, data) == Programmed(m.flash, |m.buffer|, base, data)
            <==> |data| >= |m.buffer| || m.buffer[|data|..] == Blank(|m.buffer| - |data|)
  {
    hide Put, RoundUp, Offset;
    var page := |m.buffer|;
    if |data| < page {
      ShortRoundUp(|data|, page);
      var x, y := data + m.buffer[|data|..], data + Blank(page - |data|);
      PutRead(m.flash, base, x);
      PutRead(m.flash, base, y);
      assert x[|data|..] == m.buffer[|data|..] && y[|data|..] == Blank(page - |data|);
    }
  }

  lemma ShortRoundUp(n: nat, page: nat)
    requires ValidPage(page) && 0 < n < page
    ensures RoundUp(n, page) == page
  {
    SmallOffset(n, page);
  }

  lemma ErasedIsPut(m: Memory, base: nat)
    requires ValidMemory(m) && Aligned(base, |m.buffer|)
    ensures Erase(m, base) == m.(flash := Put(m.flash, base, Blank(|m.buffer|)))
  {
    hide Put, Offset;
    PageStable(base, |m.buffer|);
  }

  lemma ProgrammedIsPut(flash: seq<byte>, page: nat, base: nat, data: seq<byte>)
    requires ValidPage(page)
    ensures Programmed(flash, page, base, data) == Put(flash, base, data + Blank(RoundUp(|data|, page) - |data|))
  {
    hide Put, RoundUp;
  }

  // ----- reading back -----

  lemma DisplayArms(c: Config, s: Dfu, start: nat, end: nat)
    requires ValidDfu(c, s) && !s.secure && !s.waitForExit && start < 65536 && end < 65536
    ensures var t := Step(c, s, Dnload(6, [Block(DISP_DATA, start, end)])).0;
            && t.state == dfuUPLOAD_IDLE && t.start == start && t.end == end && t.data[0] == 0
            && t.m == s.m && t.page64 == s.page64
  {
    hide LoadCommand, Block;
    var b := Block(DISP_DATA, start, end);
    LoadedBlock(s.(dataSize := 6), [b], b);
    BlockWords(DISP_DATA, start, end);
    BlockHead(start, end);
    assert LoadCommand(s.(dataSize := 6), [b]).0.command == DISP_DATA by { BlockCommand(start, end); }
  }

  lemma BlockCommand(start: nat, end: nat)
    requires start < 65536 && end < 65536
    ensures Block(DISP_DATA, start, end)[0] == DISP_DATA && Block(PROG_START, start, end)[0] == PROG_START
  {
  }

  /** Display and upload return the cells of the range. */
  lemma DisplayUploads(c: Config, s: Dfu, start: nat, n: nat, w: nat)
    requires ValidDfu(c, s) && !s.secure && !s.waitForExit
    requires 0 < n < 65536 && n % 2 == 0 && start + n <= 65536
    ensures var t := Step(c, s, Dnload(6, [Block(DISP_DATA, start, start + n - 1)])).0;
            Step(c, t, Upload(w)).1 == Cells(s.m.flash, s.page64 as nat * 65536 + start, n)
  {
    hide Step, Cells, Block;
    DisplayArms(c, s, start, start + n - 1);
    UploadReads(c, Step(c, s, Dnload(6, [Block(DISP_DATA, start, start + n - 1)])).0, w);
    assert (start + n - 1 - start + 1) % 65536 / 2 * 2 == n;
  }

  lemma RequestFits(s: Dfu, start: nat, data: seq<byte>, r: Request)
    requires Requested(s, start, data, r) && |data| < 65536
    ensures 0 < |data| < 65536 && |data| % 2 == 0 && start + |data| <= 65536 && r.Dnload? && ValidMemory(s.m)
    ensures s.page64 as nat * 65536 + start + RoundUp(|data|, |s.m.buffer|) <= |s.m.flash|
  {
  }

  lemma EndedCells(m: Memory, base: nat, data: seq<byte>)
    requires ValidMemory(m) && 0 < |data| && base + RoundUp(|data|, |m.buffer|) <= |m.flash|
    ensures Cells(Ended(m, base, data), base, |data|) == data
  {
    hide RoundUp, Offset;
    if |data| < |m.buffer| {
      FirstPageFits(|data|, |m.buffer|);
      var x := data + m.buffer[|data|..];
      forall k | 0 <= k < |data| ensures Cell(Put(m.flash, base, x), base + k) == data[k] {
        assert Put(m.flash, base, x)[base + k] == x[k];
      }
    } else {
      ProgrammedCells(m.flash, |m.buffer|, base, data);
    }
  }

  /** Round trip: program a range, display it, upload it; a stale page buffer does
      not reach the range. */
  lemma ProgramReadsBack(c: Config, s: Dfu, start: nat, data: seq<byte>, r: Request, w: nat)
    requires ValidDfu(c, s) && Requested(s, start, data, r) && |data| < 65536
    ensures var display := Dnload(6, [Block(DISP_DATA, start, start + |data| - 1)]);
            Replies(c, s, [r, display, Upload(w)]) == [[], [], data]
  {
    hide Step, Ended, Block, Cells, RoundUp, Requested, ValidDfu;
    RequestFits(s, start, data, r);
    var display := Dnload(6, [Block(DISP_DATA, start, start + |data| - 1)]);
    DownloadPrograms(c, s, start, data, r);
    var s1 := Step(c, s, r).0;
    DisplayUploads(c, s1, start, |data|, w);
    EndedCells(s.m, s.page64 as nat * 65536 + start, data);
    DownloadSilent(c, s, r);
    DownloadSilent(c, s1, display);
    RepliesThree(c, s, r, display, Upload(w));
  }

  lemma UploadReads(c: Config, s: Dfu, w: nat)
    requires ValidDfu(c, s) && s.state == dfuUPLOAD_IDLE && s.data[0] == 0
    ensures Step(c, s, Upload(w)).1 == Cells(s.m.flash, FlashAddress(s), (s.end - s.start + 1) % 65536 / 2 * 2)
  {
    hide Cells;
  }

  lemma DownloadSilent(c: Config, s: Dfu, r: Request)
    requires ValidDfu(c, s) && r.Dnload?
    ensures Step(c, s, r).1 == []
  {
    hide Download;
  }

  lemma RepliesThree(c: Config, s: Dfu, x: Request, y: Request, z: Request)
    requires ValidDfu(c, s)
    ensures var o1 := Step(c, s, x);
            var o2 := Step(c, o1.0, y);
            Replies(c, s, [x, y, z]) == [o1.1, o2.1, Step(c, o2.0, z).1]
  {
    hide Step, ValidDfu;
    var o1 := Step(c, s, x);
    var o2 := Step(c, o1.0, y);
    assert [x, y, z][1..] == [y, z] && [y, z][1..] == [z] && [z][1..] == [];
    assert Replies(c, o1.0, [y, z]) == [o2.1] + Replies(c, o2.0, [z]);
    assert Replies(c, o2.0, [z]) == [Step(c, o2.0, z).1] + Replies(c, Step(c, o2.0, z).0, []);
  }
}
