/** Programming EEPROM over DFU and reading it back. */
module DfuEeprom {
  import opened Spm
  import opened Chunks
  import opened Endpoints
  import opened Dfu
  import opened DfuProgramming

  predicate AllData(packets: seq<seq<byte>>) {
    forall p | p in packets :: |p| > 0
  }

  /** The queue the loop reads its next byte from, and what is left after it. */
  lemma ByteReady(q: Queue)
    requires AllData(q.pending) && |Supply(q)| > 0
    ensures |q.bank| == 0 ==> |q.pending| > 0
    ensures var r := if |q.bank| == 0 then Advance(q) else q;
            var rest := r.(bank := Tail(r.bank));
            Head(r.bank) == Supply(q)[0] && AllData(rest.pending) && Supply(rest) == Supply(q)[1..]
  {
    var r := if |q.bank| == 0 then Advance(q) else q;
    assert |q.bank| == 0 ==> q.pending[0] in q.pending && forall p | p in q.pending[1..] :: p in q.pending;
    assert Supply(q) == r.bank + Flatten(r.pending);
    assert Supply(q)[1..] == r.bank[1..] + Flatten(r.pending);
  }

  /** The loop stores exactly the bytes that come, however they are cut. */
  lemma {:induction false} LoopStores(e: seq<byte>, q: Queue, start: nat, n: nat)
    requires AllData(q.pending) && n <= |Supply(q)| && start + n <= |e| < 65536
    ensures ProgramEeprom(e, q, start, n) == EepromOutcome(Put(e, start, Supply(q)[..n]), start + n, true)
    decreases n
  {
    hide Put, Advance, Supply, AllData;
    if n == 0 {
      assert Supply(q)[..0] == [];
      PutNothing(e, start);
    } else {
      ByteReady(q);
      var b, all := Supply(q)[0], Supply(q);
      var r := if |q.bank| == 0 then Advance(q) else q;
      var rest := r.(bank := Tail(r.bank));
      LoopStores(e[start := b], rest, start + 1, n - 1);
      PutNothing(e, start);
      PutByte(e, start, [], b);
      assert [] + [b] == [b];
      PutAppend(e, start, [b], all[1..][..n - 1]);
      assert [b] + all[1..][..n - 1] == all[..n];
    }
  }

  /** Bytes stored one after another at 16-bit addresses; those past the end of the
      EEPROM have no effect. */
  function Poked(e: seq<byte>, start: nat, xs: seq<byte>): (r: seq<byte>)
    ensures |r| == |e|
    decreases |xs|
  {
    if |xs| == 0 then e else Poked(Poke(e, start, xs[0]), (start + 1) % 65536, xs[1..])
  }

  /** Whatever the loop is asked for and whatever comes: the bytes received are stored
      in order, the address counts them modulo 64 KiB, and the loop completes exactly
      when enough of them came. */
  lemma {:induction false} LoopExact(e: seq<byte>, q: Queue, start: nat, n: nat)
    requires AllData(q.pending) && start < 65536
    ensures var k := Min(n, |Supply(q)|);
            ProgramEeprom(e, q, start, n) == EepromOutcome(Poked(e, start, Supply(q)[..k]), (start + k) % 65536, k == n)
    decreases n
  {
    hide Advance, Supply, AllData, Poke, ProgramEeprom;
    if n == 0 || |Supply(q)| == 0 {
      LoopStops(e, q, start, n);
      assert Supply(q)[..0] == [];
    } else {
      var all := Supply(q);
      var b := all[0];
      var rest := LoopTakes(e, q, start, n);
      LoopExact(Poke(e, start, b), rest, (start + 1) % 65536, n - 1);
      var k := Min(n, |all|);
      assert all[1..][..k - 1] == all[..k][1..] && all[..k][0] == b;
      NextAddress(start, k - 1);
    }
  }

  lemma LoopStops(e: seq<byte>, q: Queue, start: nat, n: nat)
    requires AllData(q.pending) && start < 65536 && (n == 0 || |Supply(q)| == 0)
    ensures ProgramEeprom(e, q, start, n) == EepromOutcome(e, start, n == 0)
  {
    hide AllData;
    if n > 0 {
      NothingLeft(q);
    }
  }

  lemma LoopTakes(e: seq<byte>, q: Queue, start: nat, n: nat) returns (rest: Queue)
    requires AllData(q.pending) && start < 65536 && n > 0 && |Supply(q)| > 0
    ensures AllData(rest.pending) && Supply(rest) == Supply(q)[1..]
    ensures ProgramEeprom(e, q, start, n)
            == ProgramEeprom(Poke(e, start, Supply(q)[0]), rest, (start + 1) % 65536, n - 1)
  {
    hide Advance, Supply, AllData;
    ByteReady(q);
    var r := if |q.bank| == 0 then Advance(q) else q;
    rest := r.(bank := Tail(r.bank));
    PokeIs(e, start, Supply(q)[0]);
  }

  lemma NextAddress(start: nat, k: nat)
    ensures ((start + 1) % 65536 + k) % 65536 == (start + 1 + k) % 65536
  {
  }

  lemma PokeIs(e: seq<byte>, a: nat, b: byte)
    ensures Poke(e, a, b) == if a < |e| then e[a := b] else e
  {
  }

  lemma NothingLeft(q: Queue)
    requires AllData(q.pending)
    ensures |Supply(q)| == 0 <==> |q.bank| == 0 && |q.pending| == 0
  {
    if |q.pending| > 0 {
      assert q.pending[0] in q.pending;
    }
  }

  /** The command block for EEPROM: 1 to program, 2 to read. */
  function EepromBlock(command: byte, kind: byte, start: nat, end: nat): (b: seq<byte>)
    requires start < 65536 && end < 65536
    ensures |b| == 6
  {
    Block(command, start, end)[1 := kind]
  }

  lemma EepromBlockFields(command: byte, kind: byte, start: nat, end: nat)
    requires start < 65536 && end < 65536
    ensures var b := EepromBlock(command, kind, start, end);
            && b[0] == command && b[1..][0] == kind
            && Word(b[1..][1], b[1..][2]) == start && Word(b[1..][3], b[1..][4]) == end
  {
  }

  /** A download of `data` to EEPROM [start, start + |data|): the command block and
      its filler fill the first packet; then come the alignment bytes the code
      expects, within one packet, and the data, however it is cut. */
  predicate Stores(s: Dfu, start: nat, pad: seq<byte>, data: seq<byte>, r: Request) {
    && !s.secure && !s.waitForExit && |s.data| == 5
    && 0 < |data| < 65536 && start + |data| <= |s.eeprom| < 65536 && |pad| == start % PACKET
    && r.Dnload? && 6 < r.wLength < 65536 && |r.packets| > 1
    && |r.packets[0]| == PACKET && r.packets[0][..6] == EepromBlock(PROG_START, 1, start, start + |data| - 1)
    && AllData(r.packets[1..]) && |pad| <= |r.packets[1]| && pad + data <= Flatten(r.packets[1..])
  }

  /** What is stored: the round that fetches the alignment bytes discards none, so
      the last of them stays in front of the data. */
  function Shifted(pad: seq<byte>, data: seq<byte>): (x: seq<byte>)
    ensures |x| == |data|
  {
    if |pad| == 0 then data else ([pad[|pad| - 1]] + data)[..|data|]
  }

  lemma ShiftedStays(pad: seq<byte>, data: seq<byte>)
    ensures Shifted(pad, data) == data <==> |pad| == 0 || forall k | 0 <= k < |data| :: data[k] == pad[|pad| - 1]
  {
    if |pad| > 0 {
      ShiftedIff(pad[|pad| - 1], data);
    }
  }

  /** The alignment bytes, all but one discarded. */
  lemma PadDiscarded(rest: seq<seq<byte>>, pad: seq<byte>, data: seq<byte>)
    requires |rest| > 0 && AllData(rest) && |pad| <= |rest[0]| && pad + data <= Flatten(rest)
    ensures var q := Discard(Queue([], rest), |pad|);
            AllData(q.pending) && |data| <= |Supply(q)| && Supply(q)[..|data|] == Shifted(pad, data)
  {
    hide Discard, Flatten, AllData;
    var all := Flatten(rest);
    if |pad| == 0 {
      DiscardInside(Queue([], rest), 0);
      assert [] + all == all && all[..|data|] == data;
    } else {
      PadSupply(rest, |pad|);
      LastStays(all, pad, data);
    }
  }

  lemma PadSupply(rest: seq<seq<byte>>, n: nat)
    requires |rest| > 0 && AllData(rest) && 0 < n <= |rest[0]|
    ensures var q := Discard(Queue([], rest), n);
            n <= |Flatten(rest)| && AllData(q.pending) && Supply(q) == Flatten(rest)[n - 1..]
  {
    hide Discard;
    var q0 := Queue([], rest);
    DiscardAdvances(q0, n);
    DiscardInside(Advance(q0), n - 1);
    assert forall p | p in rest[1..] :: p in rest;
    assert Flatten(rest) == rest[0] + Flatten(rest[1..]);
  }

  lemma LastStays(all: seq<byte>, pad: seq<byte>, data: seq<byte>)
    requires |pad| > 0 && pad + data <= all
    ensures |data| <= |all[|pad| - 1..]| && all[|pad| - 1..][..|data|] == Shifted(pad, data)
  {
    var n := |pad|;
    assert (pad + data)[n - 1..] == [pad[n - 1]] + data;
    assert all[n - 1..][..|data| + 1] == [pad[n - 1]] + data;
    assert all[n - 1..][..|data|] == all[n - 1..][..|data| + 1][..|data|];
  }

  lemma DiscardAdvances(q: Queue, n: nat)
    requires |q.bank| == 0 && |q.pending| > 0 && n > 0
    ensures Discard(q, n) == Discard(Advance(q), n - 1)
  {
  }

  lemma ReceiveStores(u: Dfu, pad: seq<byte>, data: seq<byte>, filler: seq<byte>, rest: seq<seq<byte>>)
    requires ValidMemory(u.m) && |u.data| == 5 && u.data[0] == 1 && u.dataSize > 0
    requires |pad| == u.start % PACKET && u.start + |data| <= |u.eeprom| < 65536
    requires 0 < |data| < 65536 && u.end == u.start + |data| - 1
    requires |filler| == FILLER && |rest| > 0 && AllData(rest) && |pad| <= |rest[0]| && pad + data <= Flatten(rest)
    ensures Receive(u, Queue(filler, rest))
            == u.(eeprom := Put(u.eeprom, u.start, Shifted(pad, data)), start := u.start + |data|)
  {
    hide ProgramWords, ProgramEeprom, Discard, Flatten, Put, AllData, Shifted;
    DiscardBank(filler, rest);
    PadDiscarded(rest, pad, data);
    LoopStores(u.eeprom, Discard(Queue([], rest), |pad|), u.start, |data|);
    assert (u.end - u.start + 1) % 65536 == |data|;
  }

  lemma EepromOpens(c: Config, s: Dfu, start: nat, end: nat)
    requires ValidDfu(c, s) && !s.secure && start < 65536 && end < 65536
    requires s.command == PROG_START && s.data == EepromBlock(PROG_START, 1, start, end)[1..]
    ensures ProcessCommand(c, s) == s.(start := start, end := end, state := dfuDNLOAD_IDLE)
  {
    hide EepromBlock;
    EepromBlockFields(PROG_START, 1, start, end);
  }

  /** A download to EEPROM stores its data, shifted by one byte if there is any
      alignment in front of it, and leaves flash alone. */
  lemma DownloadStores(c: Config, s: Dfu, start: nat, pad: seq<byte>, data: seq<byte>, r: Request)
    requires ValidDfu(c, s) && Stores(s, start, pad, data, r)
    ensures var t := Step(c, s, r).0;
            && t.eeprom == Put(s.eeprom, start, Shifted(pad, data)) && t.m == s.m && t.page64 == s.page64
            && !t.secure && !t.waitForExit && t.state == dfuDNLOAD_IDLE
  {
    hide DownloadPackets, EepromBlock, Flatten, AllData, Put, Shifted;
    PacketsStored(c, s.(dataSize := r.wLength), start, pad, data, r.packets);
    StepDownloads(c, s, r);
  }

  /** So EEPROM ends with the data where it belongs exactly when the start is a
      multiple of the packet size, or all data bytes equal the last alignment byte. */
  lemma DownloadStoresIff(c: Config, s: Dfu, start: nat, pad: seq<byte>, data: seq<byte>, r: Request)
    requires ValidDfu(c, s) && Stores(s, start, pad, data, r)
    ensures Step(c, s, r).0.eeprom == Put(s.eeprom, start, data)
            <==> start % PACKET == 0 || forall k | 0 <= k < |data| :: data[k] == pad[|pad| - 1]
  {
    hide Step, Flatten, EepromBlock, Put, Shifted;
    DownloadStores(c, s, start, pad, data, r);
    ShiftedStays(pad, data);
    PutRead(s.eeprom, start, data);
    PutRead(s.eeprom, start, Shifted(pad, data));
  }

  lemma PacketsStored(c: Config, s: Dfu, start: nat, pad: seq<byte>, data: seq<byte>, packets: seq<seq<byte>>)
    requires ValidDfu(c, s) && Stores(s, start, pad, data, Dnload(s.dataSize, packets))
    ensures DownloadPackets(c, s, packets)
            == s.(command := PROG_START, data := EepromBlock(PROG_START, 1, start, start + |data| - 1)[1..],
                  dataSize := s.dataSize - 6, end := start + |data| - 1, state := dfuDNLOAD_IDLE,
                  eeprom := Put(s.eeprom, start, Shifted(pad, data)), start := start + |data|)
  {
    hide ProcessCommand, LoadCommand, Flatten, EepromBlock, Receive, Put, AllData, Shifted;
    var end := start + |data| - 1;
    LoadedBlock(s, packets, EepromBlock(PROG_START, 1, start, end));
    EepromBlockFields(PROG_START, 1, start, end);
    var t := LoadCommand(s, packets).0;
    EepromOpens(c, t, start, end);
    ReceiveStores(t.(start := start, end := end, state := dfuDNLOAD_IDLE), pad, data, packets[0][6..], packets[1..]);
  }

  lemma DisplayOpens(c: Config, s: Dfu, start: nat, end: nat)
    requires ValidDfu(c, s) && !s.secure && !s.waitForExit && start < 65536 && end < 65536
    ensures var t := Step(c, s, Dnload(6, [EepromBlock(DISP_DATA, 2, start, end)])).0;
            && t.state == dfuUPLOAD_IDLE && t.start == start && t.end == end && t.data[0] == 2
            && t.eeprom == s.eeprom
  {
    hide LoadCommand, EepromBlock;
    var b := EepromBlock(DISP_DATA, 2, start, end);
    LoadedBlock(s.(dataSize := 6), [b], b);
    EepromBlockFields(DISP_DATA, 2, start, end);
  }

  lemma UploadEeprom(c: Config, s: Dfu, w: nat)
    requires ValidDfu(c, s) && s.state == dfuUPLOAD_IDLE && s.data[0] == 2
    ensures Step(c, s, Upload(w)).1 == Cells(s.eeprom, s.start, (s.end - s.start + 1) % 65536)
  {
    hide Cells;
  }

  lemma PutCells(e: seq<byte>, p: nat, data: seq<byte>)
    requires p + |data| <= |e|
    ensures Cells(Put(e, p, data), p, |data|) == data
  {
    var stored := Put(e, p, data);
    forall k | 0 <= k < |data| ensures Cell(stored, p + k) == data[k] {
      assert stored[p + k] == data[k];
    }
  }

  lemma StoresFits(s: Dfu, start: nat, pad: seq<byte>, data: seq<byte>, r: Request)
    requires Stores(s, start, pad, data, r)
    ensures 0 < |data| < 65536 && start + |data| <= |s.eeprom| < 65536 && r.Dnload? && |pad| == start % PACKET
  {
  }

  /** Program an EEPROM range, display it, upload it: what comes back is the data
      exactly under the same condition. */
  lemma EepromReadsBackIff(c: Config, s: Dfu, start: nat, pad: seq<byte>, data: seq<byte>, r: Request, w: nat)
    requires ValidDfu(c, s) && Stores(s, start, pad, data, r)
    ensures var display := Dnload(6, [EepromBlock(DISP_DATA, 2, start, start + |data| - 1)]);
            && Replies(c, s, [r, display, Upload(w)]) == [[], [], Shifted(pad, data)]
            && (Replies(c, s, [r, display, Upload(w)]) == [[], [], data]
                <==> start % PACKET == 0 || forall k | 0 <= k < |data| :: data[k] == pad[|pad| - 1])
  {
    hide Step, EepromBlock, Cells, Put, Stores, ValidDfu, Shifted;
    StoresFits(s, start, pad, data, r);
    var end, stored := start + |data| - 1, Shifted(pad, data);
    var display := Dnload(6, [EepromBlock(DISP_DATA, 2, start, end)]);
    DownloadStores(c, s, start, pad, data, r);
    var s1 := Step(c, s, r).0;
    DisplayOpens(c, s1, start, end);
    UploadEeprom(c, Step(c, s1, display).0, w);
    assert (end - start + 1) % 65536 == |data|;
    PutCells(s.eeprom, start, stored);
    DownloadSilent(c, s, r);
    DownloadSilent(c, s1, display);
    RepliesThree(c, s, r, display, Upload(w));
    ShiftedStays(pad, data);
    assert [[], [], stored][2] == stored && [[], [], data][2] == data;
  }
}
