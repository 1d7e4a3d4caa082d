/** The AVR109 commands byte by byte, as a host sends them: the erase, the EEPROM byte
    an address reaches, and what each command byte does. */
module CdcCommands {
  import opened Spm
  import opened Chunks
  import opened Endpoints
  import opened ChipErase
  import opened Cdc
  import opened CdcResults
  import opened CdcBlocks

  // ----- the erase -----

  /** The erase operation blanks the application section exactly when the page buffer
      was empty, changes nothing else and is acknowledged. */
  lemma EraseIff(c: Config, s: Cdc)
    requires ValidCdc(s) && 0 < c.pages && c.pages * |s.m.buffer| <= |s.m.flash|
    ensures var o, boot := Perform(c, s, EraseAll), c.pages * |s.m.buffer|;
            && |o.0.m.flash| == |s.m.flash|
            && (o.0.m.flash[..boot] == Blank(boot) <==> BufferEmpty(s.m))
            && o.0.m.flash[boot..] == s.m.flash[boot..] && BufferEmpty(o.0.m)
            && o.0.eeprom == s.eeprom && o.0.addr == s.addr && o.0.run == s.run && o.1 == [13]
  {
    hide ErasedPages;
    EraseBlanksIff(s.m, c.pages);
  }

  /** Over the wire: the command byte 101 in a packet of its own. */
  lemma EraseSession(c: Config, s: Cdc, sent: seq<seq<byte>>)
    requires ValidCdc(s) && s.run && 0 < c.pages && c.pages * |s.m.buffer| <= |s.m.flash|
    ensures var x, boot := Session(c, Station(s, Queue([], [[101]]), Sender([], sent))), c.pages * |s.m.buffer|;
            && |x.s.m.flash| == |s.m.flash| && (x.s.m.flash[..boot] == Blank(boot) <==> BufferEmpty(s.m))
            && x.s.m.flash[boot..] == s.m.flash[boot..] && x.s.eeprom == s.eeprom && x.s.addr == s.addr
            && x.q == Queue([], []) && x.t == Sender([], sent + [[13]])
  {
    hide Session, PerformAll, Responses, Packets;
    var transfers: seq<seq<seq<byte>>> := [[[101]]];
    assert Flatten(transfers) == [[101]] by { OneTransfer([[101]]); }
    assert Carries([[101]], EraseAll) by { OneTransfer<byte>([101]); }
    SessionPerforms(c, s, transfers, [EraseAll], sent);
    OneRequest(c, s, EraseAll);
    EraseIff(c, s);
    ShortReply();
  }

  lemma OneTransfer<T>(x: seq<T>)
    ensures Flatten([x]) == x
  {
    assert [x][1..] == [] && x + [] == x;
  }

  lemma OneRequest(c: Config, s: Cdc, op: Request)
    requires ValidCdc(s)
    ensures PerformAll(c, s, [op]) == (Perform(c, s, op).0, [Perform(c, s, op).1])
  {
    hide Perform;
    assert [op][1..] == [];
    var o := Perform(c, s, op);
    assert PerformAll(c, o.0, []) == (o.0, []) && [o.1] + [] == [o.1];
  }

  lemma ShortReply()
    ensures Responses([[13]]) == [[13]]
  {
    assert [[13 as byte]][1..] == [];
    assert Responses([[13]]) == Packets([13]) + Responses([]);
  }

  /** After an erase from an empty buffer the host reads 0xFF from every address of the
      application section. */
  lemma ErasedReadsBlank(c: Config, s: Cdc, n: nat)
    requires ValidCdc(s) && BufferEmpty(s.m) && 0 < c.pages && c.pages * |s.m.buffer| <= |s.m.flash|
    requires s.addr + n <= c.pages * |s.m.buffer|
    ensures PerformAll(c, s, [EraseAll, ReadBlock(70, n)]).1 == [[13], Blank(n)]
  {
    hide Perform, ErasedPages;
    var t := Perform(c, s, EraseAll).0;
    EraseIff(c, s);
    assert [EraseAll, ReadBlock(70, n)][1..] == [ReadBlock(70, n)];
    OneRequest(c, t, ReadBlock(70, n));
    ReadsCells(c, t, n);
    BlankCells(t.m.flash, c.pages * |s.m.buffer|, t.addr, n);
  }

  lemma ReadsCells(c: Config, s: Cdc, n: nat)
    requires ValidCdc(s)
    ensures Perform(c, s, ReadBlock(70, n)).1 == Cells(s.m.flash, s.addr, n)
  {
    hide Cells;
  }

  lemma BlankCells(f: seq<byte>, boot: nat, a: nat, n: nat)
    requires boot <= |f| && f[..boot] == Blank(boot) && a + n <= boot
    ensures Cells(f, a, n) == Blank(n)
  {
    forall k | 0 <= k < n ensures Cells(f, a, n)[k] == BLANK {
      assert f[..boot][a + k] == Blank(boot)[a + k];
      assert Cells(f, a, n)[k] == Cell(f, a + k);
    }
  }

  // ----- what is left of a packet -----

  lemma {:induction false} FetchFront(e: seq<byte>, junk: seq<byte>, rest: seq<seq<byte>>, n: nat)
    requires n <= |e|
    ensures FetchAll(Queue(e + junk, rest), n) == (e[..n], Queue(e[n..] + junk, rest))
    decreases n
  {
    if n > 0 {
      FetchFront(e, junk, rest, n - 1);
      assert e[..n] == e[..n - 1] + [e[n - 1]];
      assert (e[n - 1..] + junk)[1..] == e[n..] + junk;
    } else {
      assert e[..0] == [] && e[0..] == e;
    }
  }

  /** A command in the front of a packet is performed and answered, whatever else the
      packet holds is dropped, and the packets behind it wait. */
  lemma JunkDropped(
    c: Config, s: Cdc, op: Request, junk: seq<byte>, rest: seq<seq<byte>>, sent: seq<seq<byte>>)
    requires ValidCdc(s) && ValidRequest(op)
    ensures var o := Perform(c, s, op);
            Task(c, Station(s, Queue([], [Encode(op) + junk] + rest), Sender([], sent)))
            == Station(o.0, Queue([], rest), Sender([], sent + Packets(o.1)))
  {
    hide React, FetchAll, Perform, WriteAll, EndTransfer, Packets, Encode;
    var e := Encode(op);
    var q := Queue(e + junk, rest);
    assert ([e + junk] + rest)[1..] == rest;
    assert Supply(q) == e + (junk + Flatten(rest));
    ReactDecodes(c, s, q, op);
    FetchFront(e, junk, rest, |e|);
    TransferPackets(sent, Perform(c, s, op).1);
  }

  /** The packets of a reply: 16 bytes each, then one with what is left, even if that
      is nothing. */
  lemma {:induction false} PacketSizes(bs: seq<byte>, i: nat)
    requires i < |Packets(bs)|
    ensures |Packets(bs)| == |bs| / 16 + 1
    ensures Packets(bs)[i] == bs[16 * i..if i < |bs| / 16 then 16 * i + 16 else |bs|]
    decreases |bs|
  {
    if |bs| < 16 {
      assert bs[0..|bs|] == bs;
    } else {
      var rest := bs[16..];
      PacketSizes(rest, if i > 0 then i - 1 else 0);
      assert |rest| / 16 == |bs| / 16 - 1;
      if i > 0 {
        var end := if i < |bs| / 16 then 16 * i + 16 else |bs|;
        assert rest[16 * (i - 1)..end - 16] == bs[16 * i..end];
      }
    }
  }

  /** A set-address command whose operands never come: they count as zero. */
  lemma TruncatedAddress(c: Config, s: Cdc)
    requires ValidCdc(s)
    ensures React(c, s, Queue([65], [])) == Reaction(s.(addr := 0), Queue([], []), [13])
  {
    hide FetchAll;
    var q: Queue := Queue([], []);
    assert Fetch(Queue([65], [])) == (65, q) && Fetch(q) == (0, q);
    assert FetchAll(q, 2) == ([0, 0], q) by { Nobody(q); }
  }

  lemma Nobody(q: Queue)
    requires q == Queue([], [])
    ensures FetchAll(q, 2) == ([0, 0], q)
  {
    var zero: seq<byte> := [0];
    assert Fetch(q) == (0, q) && [] + zero == zero && zero + zero == [0, 0];
    assert FetchAll(q, 1) == (FetchAll(q, 0).0 + zero, q);
  }

  // ----- EEPROM addresses -----

  /** The EEPROM byte a set-address command and a block command after it reach: the
      address is doubled and extended as a flash address is, then halved again and cut
      to 16 bits. */
  function EepromCell(hi: byte, lo: byte): (a: nat)
    ensures a < 65536
    ensures a == 256 * hi as nat + lo as nat <==> hi < 64 || hi >= 192
  {
    var h, l := hi as nat, lo as nat;
    if h < 64 then 256 * h + l
    else if h < 128 then 256 * h + l + 32768
    else if h < 192 then 256 * h + l - 32768
    else 256 * h + l
  }

  lemma AddressCell(hi: byte, lo: byte)
    ensures NewAddress(hi, lo) / 2 % 65536 == EepromCell(hi, lo)
  {
    var h, l := hi as nat, lo as nat;
    assert ShiftedNine(hi) == if h < 128 then h * 512 else h * 512 - 65536;
  }

  /** It is the byte the host named exactly when the high byte is below 64 or at least
      192; what is written there is what is read from there. */
  lemma EepromByte(c: Config, s: Cdc, hi: byte, lo: byte, b: byte)
    requires ValidCdc(s)
    ensures var t, a := PerformAll(c, s, [SetAddress(hi, lo), WriteBlock(69, [b])]), EepromCell(hi, lo);
            && t.0.eeprom == (if a < |s.eeprom| then s.eeprom[a := b] else s.eeprom) && t.0.m == s.m
            && PerformAll(c, s, [SetAddress(hi, lo), ReadBlock(69, 1)]).1
               == [[13], [if a < |s.eeprom| then s.eeprom[a] else BLANK]]
  {
    hide NewAddress, EepromCell;
    AddressCell(hi, lo);
    var t := s.(addr := NewAddress(hi, lo));
    OneRequest(c, t, WriteBlock(69, [b]));
    OneRequest(c, t, ReadBlock(69, 1));
    assert [SetAddress(hi, lo), WriteBlock(69, [b])][1..] == [WriteBlock(69, [b])];
    assert [SetAddress(hi, lo), ReadBlock(69, 1)][1..] == [ReadBlock(69, 1)];
    assert Stored(t.eeprom, t.addr, [b], 1) == Poke(Stored(t.eeprom, t.addr, [b], 0), t.addr / 2 % 65536, b);
    assert ReadCells(t.eeprom, t.addr, 1) == [Cell(t.eeprom, t.addr / 2 % 65536)];
  }

  // ----- the command bytes -----

  function Ascii(ch: char): (b: byte)
    requires ch as int < 256
  {
    ch as int as byte
  }

  /** AVR109 as its command letters: E to exit, A and a word address, e to erase, B
      and g with a size, a memory letter and the data. Sizes are sent high byte
      first. */
  function Wire(op: Request): (bs: seq<byte>)
    requires ValidRequest(op)
  {
    match op
    case Exit => [Ascii('E')]
    case SetAddress(hi, lo) => [Ascii('A'), hi, lo]
    case EraseAll => [Ascii('e')]
    case WriteBlock(kind, bytes) => [Ascii('B')] + Size(|bytes|) + [kind] + bytes
    case ReadBlock(kind, count) => [Ascii('g')] + Size(count) + [kind]
  }

  function Size(n: nat): (bs: seq<byte>)
    requires n < 65536
    ensures |bs| == 2 && 256 * bs[0] as nat + bs[1] as nat == n
  {
    [(n / 256) as byte, (n % 256) as byte]
  }

  /** The memory letters are F and E, and the encoding of the session results is this
      one. */
  lemma WireIsEncoding(op: Request)
    requires ValidRequest(op)
    ensures Wire(op) == Encode(op)
    ensures op.WriteBlock? ==> op.kind == Ascii('F') || op.kind == Ascii('E')
    ensures op.ReadBlock? ==> op.kind == Ascii('F') || op.kind == Ascii('E')
  {
  }

  /** A block command for any other memory is refused and touches nothing. */
  lemma BadMemory(c: Config, s: Cdc, size: seq<byte>, kind: byte, command: char)
    requires ValidCdc(s) && |size| == 2 && kind != Ascii('F') && kind != Ascii('E')
    requires command == 'B' || command == 'g'
    ensures var r := React(c, s, Queue([Ascii(command)] + size + [kind], []));
            r.s == s && r.reply == [Ascii('?')]
  {
    hide Fetch, FetchAll;
    var bs := [Ascii(command)] + size + [kind];
    var q := Queue(bs, []);
    assert Supply(q) == bs + [] == bs;
    FetchHeader(q, bs);
  }

  /** A command byte the bootloader does not know is answered with a question mark,
      the synchronisation byte with nothing; neither touches anything. */
  lemma UnknownCommand(c: Config, s: Cdc, b: byte)
    requires ValidCdc(s) && b !in c.fixed
    requires b != Ascii('E') && b != Ascii('A') && b != Ascii('e') && b != Ascii('B') && b != Ascii('g')
    ensures var r := React(c, s, Queue([b], []));
            r.s == s && r.reply == if b == 27 then [] else [Ascii('?')]
  {
    hide FetchAll;
  }

  /** A command with a fixed reply, with all its operands present. */
  lemma FixedCommand(c: Config, s: Cdc, b: byte, operands: seq<byte>)
    requires ValidCdc(s) && b in c.fixed && |operands| == c.fixed[b].0
    requires b != Ascii('E') && b != Ascii('A') && b != Ascii('e') && b != Ascii('B') && b != Ascii('g')
    ensures React(c, s, Queue([b] + operands, [])) == Reaction(s, Queue([], []), c.fixed[b].1)
  {
    hide FetchAll, Fetch;
    var q := Queue([b] + operands, []);
    assert Supply(q) == [b] + operands + [] == [b] + operands;
    FetchInOrder(q);
    FetchNext(b, operands);
    assert operands + Flatten<byte>([]) == operands;
    FetchAllExact(operands, [], []);
  }

  lemma FetchNext(b: byte, rest: seq<byte>)
    ensures Fetch(Queue([b] + rest, [])) == (b, Queue(rest, []))
  {
    assert ([b] + rest)[1..] == rest;
  }
}
