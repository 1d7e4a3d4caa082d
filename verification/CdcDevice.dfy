/** The CDC bootloader's own code: globals and endpoint banks updated by the
    command task, with its byte-wise loops over blocks. */
module CdcDevice {
  import opened Spm
  import opened Device
  import opened ChipErase
  import opened Endpoints
  import opened Cdc

  lemma WriteAllSnoc(t: Sender, bs: seq<byte>, b: byte)
    ensures WriteAll(t, bs + [b]) == WriteByte(WriteAll(t, bs), b)
  {
    assert (bs + [b])[..|bs|] == bs;
  }

  lemma CellsSnoc(mem: seq<byte>, a: nat, n: nat)
    ensures Cells(mem, a, n + 1) == Cells(mem, a, n) + [Cell(mem, a + n)]
  {
  }

  lemma ReadCellsSnoc(e: seq<byte>, addr: nat, n: nat)
    ensures ReadCells(e, addr, n + 1) == ReadCells(e, addr, n) + [Cell(e, (addr / 2 + n) % 65536)]
  {
  }

  lemma {:induction false} StoredPrefix(e: seq<byte>, addr: nat, data: seq<byte>, x: byte, n: nat)
    requires n <= |data|
    ensures Stored(e, addr, data + [x], n) == Stored(e, addr, data, n)
    decreases n
  {
    if n > 0 {
      StoredPrefix(e, addr, data, x, n - 1);
    }
  }

  /** One more byte stored, at the address that counts two for each byte. */
  lemma StoredByte(e: seq<byte>, a: nat, data: seq<byte>, b: byte, addr: nat)
    requires addr == a + 2 * |data|
    ensures Stored(e, a, data + [b], |data| + 1) == Poke(Stored(e, a, data, |data|), addr / 2 % 65536, b)
  {
    hide Poke;
    HalfStep(a, |data|);
    StoredPrefix(e, a, data, b, |data|);
  }

  lemma StoredNothing(e: seq<byte>, addr: nat, data: seq<byte>)
    ensures Stored(e, addr, data, 0) == e
  {
  }

  lemma FetchNone(q: Queue)
    ensures FetchAll(q, 0) == ([], q)
  {
  }

  lemma FetchSnoc(q: Queue, n: nat)
    ensures var front := FetchAll(q, n);
            var last := Fetch(front.1);
            FetchAll(q, n + 1) == (front.0 + [last.0], last.1)
  {
    hide Fetch;
  }

  lemma HalfStep(a: nat, k: nat)
    ensures (a + 2 * k) / 2 == a / 2 + k && (a + 2 * k) % 2 == a % 2
  {
  }

  class Bootloader {
    const c: Config
    const chip: Chip
    var currAddress: nat
    var runBootloader: bool
    /** The OUT endpoint: unread bytes of its bank, packets still to come. */
    var outBank: seq<byte>
    var pending: seq<seq<byte>>
    /** The IN endpoint: its bank and the packets sent. */
    var inBank: seq<byte>
    var sent: seq<seq<byte>>

    ghost function View(): (s: Cdc)
      reads this, chip
    {
      Cdc(currAddress, runBootloader, chip.mem, chip.eeprom)
    }

    ghost function Received(): (q: Queue)
      reads this
    {
      Queue(outBank, pending)
    }

    ghost function Sending(): (t: Sender)
      reads this
    {
      Sender(inBank, sent)
    }

    ghost predicate Valid()
      reads this, chip
    {
      ValidCdc(View())
    }

    constructor (c: Config, chip: Chip)
      requires chip.Valid()
      ensures Valid() && this.c == c && this.chip == chip && currAddress == 0 && runBootloader
      ensures Received() == Queue([], []) && Sending() == Sender([], [])
    {
      this.c, this.chip := c, chip;
      currAddress, runBootloader := 0, true;
      outBank, pending, inBank, sent := [], [], [], [];
    }

    method FetchNextCommandByte() returns (b: byte)
      modifies this`outBank, this`pending
      ensures (b, Received()) == Fetch(old(Received()))
    {
      while |outBank| == 0
        invariant Fetch(Received()) == Fetch(old(Received()))
        decreases |pending|
      {
        if |pending| == 0 {
          outBank := [];
          return 0;
        }
        outBank, pending := pending[0], pending[1..];
      }
      b := outBank[0];
      outBank := outBank[1..];
    }

    method WriteNextResponseByte(b: byte)
      modifies this`inBank, this`sent
      ensures Sending() == WriteByte(old(Sending()), b)
    {
      if |inBank| >= BANK {
        sent := sent + [inBank];
        inBank := [];
      }
      inBank := inBank + [b];
    }

    method WriteResponse(reply: seq<byte>)
      modifies this`inBank, this`sent
      ensures Sending() == WriteAll(old(Sending()), reply)
    {
      hide WriteByte;
      for k := 0 to |reply|
        invariant Sending() == WriteAll(old(Sending()), reply[..k])
      {
        assert reply[..k + 1] == reply[..k] + [reply[k]];
        WriteAllSnoc(old(Sending()), reply[..k], reply[k]);
        WriteNextResponseByte(reply[k]);
      }
      assert reply[..|reply|] == reply;
    }

    method SkipOperands(n: nat)
      modifies this`outBank, this`pending
      ensures Received() == FetchAll(old(Received()), n).1
    {
      hide Fetch;
      for k := 0 to n
        invariant Received() == FetchAll(old(Received()), k).1
      {
        var _ := FetchNextCommandByte();
      }
    }

    /** The read loop over flash. */
    method ReadFlash(size: nat)
      requires Valid()
      modifies this`currAddress, this`inBank, this`sent
      ensures Valid() && currAddress == old(currAddress) + Even(size)
      ensures Sending() == WriteAll(old(Sending()), Cells(chip.mem.flash, old(currAddress), size))
    {
      hide WriteByte, WriteAll, Cells;
      ghost var a, flash := currAddress, chip.mem.flash;
      var highByte := false;
      assert Cells(flash, a, 0) == [];
      WriteNothing(Sending());
      for k := 0 to size
        invariant highByte == (k % 2 == 1) && currAddress == a + Even(k)
        invariant Sending() == WriteAll(old(Sending()), Cells(flash, a, k))
      {
        CellsSnoc(flash, a, k);
        WriteAllSnoc(old(Sending()), Cells(flash, a, k), Cell(flash, a + k));
        WriteNextResponseByte(Cell(chip.mem.flash, currAddress + if highByte then 1 else 0));
        if highByte {
          currAddress := currAddress + 2;
        }
        highByte := !highByte;
      }
    }

    /** The read loop over EEPROM. */
    method ReadEeprom(size: nat)
      requires Valid()
      modifies this`currAddress, this`inBank, this`sent
      ensures Valid() && currAddress == old(currAddress) + 2 * size
      ensures Sending() == WriteAll(old(Sending()), ReadCells(chip.eeprom, old(currAddress), size))
    {
      hide WriteByte, WriteAll, ReadCells;
      ghost var a, eeprom := currAddress, chip.eeprom;
      assert ReadCells(eeprom, a, 0) == [];
      WriteNothing(Sending());
      for k := 0 to size
        invariant currAddress == a + 2 * k
        invariant Sending() == WriteAll(old(Sending()), ReadCells(eeprom, a, k))
      {
        ReadCellsSnoc(eeprom, a, k);
        WriteAllSnoc(old(Sending()), ReadCells(eeprom, a, k), Cell(eeprom, (a / 2 + k) % 65536));
        HalfStep(a, k);
        WriteNextResponseByte(Cell(chip.eeprom, currAddress / 2 % 65536));
        currAddress := currAddress + 2;
      }
    }

    /** The write loop over flash, between its page erase and page write. */
    method WriteFlashBlock(size: nat)
      requires Valid()
      modifies this`currAddress, this`outBank, this`pending, chip`mem
      ensures Valid()
      ensures var body := FetchAll(old(Received()), size);
              View() == WriteFlash(old(View()), body.0) && Received() == body.1
    {
      hide Fetch, FetchAll, Fill, Erase, Write, Filled;
      var pageStartAddress := currAddress;
      chip.PageErase(pageStartAddress);
      ghost var m0, q0, body := chip.mem, Received(), FetchAll(Received(), 0);
      var highByte, lowByte := false, 0;
      FilledNothing(m0, pageStartAddress);
      FetchNone(q0);
      for k := 0 to size
        invariant highByte == (k % 2 == 1) && currAddress == pageStartAddress + Even(k)
        invariant body == FetchAll(q0, k) && Received() == body.1 && (highByte ==> lowByte == body.0[k - 1])
        invariant chip.Valid() && chip.mem == Filled(m0, pageStartAddress, body.0, k / 2)
      {
        ghost var before := body.0;
        var b := FetchNextCommandByte();
        body := FetchAll(q0, k + 1);
        FetchSnoc(q0, k);
        FilledNext(m0, pageStartAddress, before, b, k / 2);
        if highByte {
          chip.PageFill(currAddress, lowByte, b);
          currAddress := currAddress + 2;
        } else {
          lowByte := b;
        }
        highByte := !highByte;
      }
      chip.PageWrite(pageStartAddress);
    }

    /** The write loop over EEPROM. */
    method WriteEepromBlock(size: nat)
      requires Valid()
      modifies this`currAddress, this`outBank, this`pending, chip`eeprom
      ensures Valid() && currAddress == old(currAddress) + 2 * size
      ensures var body := FetchAll(old(Received()), size);
              chip.eeprom == Stored(old(chip.eeprom), old(currAddress), body.0, size) && Received() == body.1
    {
      hide Fetch, FetchAll, Poke, Stored;
      ghost var a, e0, q0, body := currAddress, chip.eeprom, Received(), FetchAll(Received(), 0);
      StoredNothing(e0, a, body.0);
      FetchNone(q0);
      for k := 0 to size
        invariant currAddress == a + 2 * k && body == FetchAll(q0, k) && Received() == body.1
        invariant |body.0| == k && chip.eeprom == Stored(e0, a, body.0, k)
      {
        ghost var before, q := body.0, body.1;
        var b := WriteEepromNext();
        body := FetchAll(q0, k + 1);
        FetchSnoc(q0, k);
        assert body == (before + [b], Received());
        StoredByte(e0, a, before, b, currAddress - 2);
      }
      HalfStep(a, size);
    }

    /** One round: the next byte goes to half the address. */
    method WriteEepromNext() returns (b: byte)
      modifies this`currAddress, this`outBank, this`pending, chip`eeprom
      ensures (b, Received()) == Fetch(old(Received()))
      ensures chip.eeprom == Poke(old(chip.eeprom), old(currAddress) / 2 % 65536, b)
      ensures currAddress == old(currAddress) + 2
    {
      hide Fetch, Poke;
      b := FetchNextCommandByte();
      chip.EepromWriteByte(currAddress / 2 % 65536, b);
      currAddress := currAddress + 2;
    }

    method ReadMemory(memoryType: byte, blockSize: nat)
      requires Valid() && (memoryType == FLASH || memoryType == EEPROM)
      modifies this`currAddress, this`inBank, this`sent
      ensures Valid()
      ensures var o := Perform(c, old(View()), ReadBlock(memoryType, blockSize));
              View() == o.0 && Sending() == WriteAll(old(Sending()), o.1)
    {
      hide ReadCells, Cells, WriteAll;
      if memoryType == FLASH {
        ReadFlash(blockSize);
      } else {
        ReadEeprom(blockSize);
      }
    }

    method WriteMemory(memoryType: byte, blockSize: nat)
      requires Valid() && (memoryType == FLASH || memoryType == EEPROM)
      modifies this`currAddress, this`outBank, this`pending, this`inBank, this`sent, chip
      ensures Valid()
      ensures var body := FetchAll(old(Received()), blockSize);
              var o := Perform(c, old(View()), WriteBlock(memoryType, body.0));
              View() == o.0 && Received() == body.1 && Sending() == WriteAll(old(Sending()), o.1)
    {
      hide WriteFlash, Stored, FetchAll, WriteAll;
      if memoryType == FLASH {
        WriteFlashBlock(blockSize);
      } else {
        WriteEepromBlock(blockSize);
      }
      WriteResponse([DONE]);
    }

    method ReadWriteMemoryBlock(command: byte)
      requires Valid()
      modifies this`currAddress, this`outBank, this`pending, this`inBank, this`sent, chip
      ensures Valid()
      ensures var r := BlockCommand(c, old(View()), old(Received()), command);
              View() == r.s && Received() == r.q && Sending() == WriteAll(old(Sending()), r.reply)
    {
      hide Fetch, FetchAll, Perform, WriteAll;
      ghost var q0 := Received();
      var high := FetchNextCommandByte();
      var low := FetchNextCommandByte();
      var memoryType := FetchNextCommandByte();
      FetchThree(q0);
      var blockSize := high as nat * 256 + low as nat;
      if memoryType != FLASH && memoryType != EEPROM {
        WriteResponse([FAILED]);
      } else if command == BLOCK_READ {
        ReadMemory(memoryType, blockSize);
      } else {
        WriteMemory(memoryType, blockSize);
      }
    }

    /** The dispatch of CDC_Task up to the end of the response. */
    method Dispatch()
      requires Valid()
      modifies this, chip
      ensures Valid()
      ensures var r := React(c, old(View()), old(Received()));
              View() == r.s && Received() == r.q && Sending() == WriteAll(old(Sending()), r.reply)
    {
      hide Fetch, BlockCommand, WriteAll, ErasedPages;
      var command := FetchNextCommandByte();
      if command == EXIT {
        runBootloader := false;
        WriteResponse([DONE]);
      } else if command == SET_ADDRESS {
        ghost var q0 := Received();
        var hi := FetchNextCommandByte();
        var lo := FetchNextCommandByte();
        FetchTwo(q0);
        currAddress := NewAddress(hi, lo);
        WriteResponse([DONE]);
      } else if command == ERASE {
        EraseApplication(chip, c.pages * |chip.mem.buffer|, c.pages);
        WriteResponse([DONE]);
      } else if command == BLOCK_WRITE || command == BLOCK_READ {
        ReadWriteMemoryBlock(command);
      } else if command in c.fixed {
        SkipOperands(c.fixed[command].0);
        WriteResponse(c.fixed[command].1);
      } else if command != SYNC {
        WriteResponse([FAILED]);
      } else {
        WriteNothing(Sending());
      }
    }

    method CDCTask()
      requires Valid()
      modifies this, chip
      ensures Valid()
      ensures Station(View(), Received(), Sending()) == Task(c, old(Station(View(), Received(), Sending())))
    {
      hide React, WriteAll;
      if |pending| == 0 {
        return;
      }
      outBank, pending := pending[0], pending[1..];
      Dispatch();
      var isEndpointFull := |inBank| >= BANK;
      sent := sent + [inBank];
      inBank := [];
      if isEndpointFull {
        sent := sent + [[]];
      }
      outBank := [];
    }

    /** The main loop, until told to stop or nothing more arrives. */
    method Run()
      requires Valid()
      modifies this, chip
      ensures Valid()
      ensures Station(View(), Received(), Sending()) == Session(c, old(Station(View(), Received(), Sending())))
    {
      hide Task;
      ghost var x0 := Station(View(), Received(), Sending());
      while runBootloader && |pending| > 0
        invariant Valid() && Session(c, Station(View(), Received(), Sending())) == Session(c, x0)
        decreases |pending|
      {
        CDCTask();
      }
    }
  }

  lemma WriteNothing(t: Sender)
    ensures WriteAll(t, []) == t
  {
  }

  lemma FetchTwo(q: Queue)
    ensures var a := Fetch(q);
            var b := Fetch(a.1);
            FetchAll(q, 2) == ([a.0, b.0], b.1)
  {
    hide Fetch;
    var a := Fetch(q);
    var b := Fetch(a.1);
    assert FetchAll(q, 0) == ([], q);
    assert [] + [a.0] == [a.0] && [a.0] + [b.0] == [a.0, b.0];
    assert FetchAll(q, 1) == ([a.0], a.1);
  }

  lemma FetchThree(q: Queue)
    ensures var a := Fetch(q);
            var b := Fetch(a.1);
            var c := Fetch(b.1);
            FetchAll(q, 3) == ([a.0, b.0, c.0], c.1)
  {
    hide Fetch;
    FetchTwo(q);
    var two := FetchAll(q, 2);
    assert two.0 + [Fetch(two.1).0] == [two.0[0], two.0[1], Fetch(two.1).0];
  }
}
