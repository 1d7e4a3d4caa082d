/** The DFU bootloader's own code: globals updated by the request handler, the
    loops over endpoint packets, flash pages and EEPROM bytes. */
module DfuDevice {
  import opened Spm
  import opened Device
  import opened ChipErase
  import opened Dfu
  import opened Endpoints

  class Bootloader {
    const c: Config
    const chip: Chip
    var isSecure: bool
    var runBootloader: bool
    var waitForExit: bool
    var dfuState: DfuState
    var dfuStatus: Status
    var command: byte
    var data: seq<byte>
    var dataSize: nat
    var responseByte: byte
    var flash64KBPage: byte
    var startAddr: nat
    var endAddr: nat
    /** The control endpoint: unread bytes of its bank, packets still to come. */
    var bank: seq<byte>
    var pending: seq<seq<byte>>

    ghost function View(): (s: Dfu)
      reads this, chip
    {
      Dfu(isSecure, runBootloader, waitForExit, dfuState, dfuStatus, command, data, dataSize, responseByte,
          flash64KBPage, startAddr, endAddr, chip.mem, chip.eeprom)
    }

    ghost function Endpoint(): (q: Queue)
      reads this
    {
      Queue(bank, pending)
    }

    ghost predicate Valid()
      reads this, chip
    {
      ValidDfu(c, View())
    }

    constructor (c: Config, chip: Chip, secureMode: bool)
      requires chip.Valid() && c.pages * |chip.mem.buffer| <= |chip.mem.flash|
      ensures Valid() && this.c == c && this.chip == chip
      ensures isSecure == secureMode && runBootloader && !waitForExit && dfuState == dfuIDLE && dfuStatus == OK
    {
      this.c, this.chip := c, chip;
      isSecure, runBootloader, waitForExit := secureMode, true, false;
      dfuState, dfuStatus := dfuIDLE, OK;
      command, data, dataSize := 0, [0, 0, 0, 0, 0], 0;
      responseByte, flash64KBPage, startAddr, endAddr := 0, 0, 0, 0;
      bank, pending := [], [];
    }

    /** Clear the bank and wait for the next packet; false when the host is gone. */
    method NextPacket() returns (received: bool)
      modifies this`bank, this`pending
      ensures received == (|old(pending)| > 0) && Endpoint() == Advance(old(Endpoint()))
    {
      bank := [];
      if |pending| == 0 {
        return false;
      }
      bank, pending := pending[0], pending[1..];
      return true;
    }

    method ReadByte() returns (b: byte)
      modifies this`bank
      ensures b == Head(old(bank)) && bank == Tail(old(bank))
    {
      if |bank| == 0 {
        return 0;
      }
      b := bank[0];
      bank := bank[1..];
    }

    method DiscardFillerBytes(numberOfBytes: nat)
      modifies this`bank, this`pending
      ensures Endpoint() == Discard(old(Endpoint()), numberOfBytes)
    {
      var left := numberOfBytes;
      while left > 0
        invariant 0 <= left <= numberOfBytes
        invariant Discard(old(Endpoint()), numberOfBytes) == Discard(Endpoint(), left)
      {
        if |bank| == 0 {
          var received := NextPacket();
          if !received {
            return;
          }
        } else {
          bank := bank[1..];
        }
        left := left - 1;
      }
    }

    /** The flash loop of the download; false when the host went away. */
    method ProgramFlash(words: nat) returns (complete: bool)
      requires chip.Valid()
      modifies this`bank, this`pending, chip`mem
      ensures chip.Valid()
      ensures var a := flash64KBPage as nat * 65536 + startAddr;
              var o := ProgramWords(Cursor(old(chip.mem), old(Endpoint()), a, a, 0), words);
              complete == o.complete && chip.mem == o.k.m
    {
      hide Fill, Write, Erase, ProgramWords, ProgramWord, Advance;
      var currFlashAddress: nat := flash64KBPage as nat * 65536 + startAddr;
      var currFlashPageStartAddress: nat, wordsInFlashPage: nat := currFlashAddress, 0;
      var wordsRemaining := words;
      ghost var k0 := Cursor(chip.mem, Endpoint(), currFlashAddress, currFlashAddress, 0);
      ghost var k := k0;
      while wordsRemaining > 0
        invariant 0 <= wordsRemaining <= words && chip.Valid()
        invariant k == Cursor(chip.mem, Endpoint(), currFlashAddress, currFlashPageStartAddress, wordsInFlashPage)
        invariant ProgramWords(k0, words) == ProgramWords(k, wordsRemaining)
      {
        wordsRemaining := wordsRemaining - 1;
        ProgramWordsStep(k, wordsRemaining + 1);
        if |bank| == 0 {
          var received := NextPacket();
          if !received {
            return false;
          }
        }
        k := k.(q := Endpoint());
        currFlashAddress, currFlashPageStartAddress, wordsInFlashPage :=
          ProgramOneWord(currFlashAddress, currFlashPageStartAddress, wordsInFlashPage, wordsRemaining);
        k := ProgramWord(k, wordsRemaining);
      }
      ProgramWordsEnd(k);
      return true;
    }

    /** One round of the flash loop, with a packet in the bank. */
    method ProgramOneWord(address: nat, pageStart: nat, inPage: nat, wordsRemaining: nat)
      returns (address': nat, pageStart': nat, inPage': nat)
      requires chip.Valid()
      modifies this`bank, chip`mem
      ensures chip.Valid()
      ensures Cursor(chip.mem, Endpoint(), address', pageStart', inPage')
           == ProgramWord(Cursor(old(chip.mem), old(Endpoint()), address, pageStart, inPage), wordsRemaining)
    {
      hide Fill, Write, Erase, Head, Tail;
      var lo := ReadByte();
      var hi := ReadByte();
      chip.PageFill(address, lo, hi);
      inPage', address', pageStart' := inPage + 1, address + 2, pageStart;
      if 2 * inPage' == |chip.mem.buffer| || wordsRemaining == 0 {
        chip.PageWrite(pageStart);
        if wordsRemaining > 0 {
          pageStart' := address';
          inPage' := 0;
          chip.PageErase(address');
        }
      }
    }

    /** The EEPROM loop of the download. */
    method ProgramEEPROM(bytes: nat) returns (complete: bool)
      requires startAddr < 65536
      modifies this`bank, this`pending, this`startAddr, chip`eeprom
      ensures var o := ProgramEeprom(old(chip.eeprom), old(Endpoint()), old(startAddr), bytes);
              complete == o.complete && chip.eeprom == o.eeprom && startAddr == o.start
    {
      var bytesRemaining := bytes;
      while bytesRemaining > 0
        invariant 0 <= bytesRemaining <= bytes && startAddr < 65536
        invariant ProgramEeprom(old(chip.eeprom), old(Endpoint()), old(startAddr), bytes)
               == ProgramEeprom(chip.eeprom, Endpoint(), startAddr, bytesRemaining)
      {
        bytesRemaining := bytesRemaining - 1;
        if |bank| == 0 {
          var received := NextPacket();
          if !received {
            return false;
          }
        }
        var b := ReadByte();
        if startAddr < |chip.eeprom| {
          chip.eeprom := chip.eeprom[startAddr := b];
        }
        startAddr := (startAddr + 1) % 65536;
      }
      return true;
    }

    method LoadStartEndAddresses()
      requires |data| == 5
      modifies this`startAddr, this`endAddr
      ensures View() == LoadAddresses(old(View()))
    {
      startAddr := data[1] as nat * 256 + data[2] as nat;
      endAddr := data[3] as nat * 256 + data[4] as nat;
    }

    method ProcessMemProgCommand()
      requires Valid()
      modifies this`startAddr, this`endAddr, this`dfuState, chip`mem
      ensures Valid() && View() == MemProg(old(View()))
    {
      hide Erase;
      if data[0] == 0 || data[0] == 1 {
        LoadStartEndAddresses();
        if data[0] == 0 {
          chip.PageErase(flash64KBPage as nat * 65536 + startAddr);
        }
        dfuState := dfuDNLOAD_IDLE;
      }
    }

    method ProcessMemReadCommand()
      requires Valid()
      modifies this`startAddr, this`endAddr, this`dfuState, this`dfuStatus, this`flash64KBPage
      ensures Valid() && View() == MemRead(c, old(View()))
    {
      hide FirstUsed, Blank;
      if data[0] == 0 || data[0] == 2 {
        LoadStartEndAddresses();
        dfuState := dfuUPLOAD_IDLE;
      } else if data[0] == 1 {
        var boot := c.pages * |chip.mem.buffer|;
        var found, currFlashAddress := BlankCheck(chip.mem.flash, boot);
        FirstUsedUnique(chip.mem.flash, boot, found, currFlashAddress);
        if found {
          flash64KBPage := (currFlashAddress / 65536 % 256) as byte;
          startAddr := currFlashAddress % 65536;
          dfuState := dfuERROR;
          dfuStatus := errCHECK_ERASED;
        }
      }
    }

    method ProcessWriteCommand()
      requires Valid()
      modifies this`waitForExit, this`runBootloader, this`isSecure, chip`mem
      ensures Valid() && View() == WriteCommand(c, old(View()))
    {
      hide ErasedPages;
      if data[0] == 3 {
        waitForExit := true;
        if dataSize == 0 && data[1] != 0 {
          runBootloader := false;
        }
      } else if data[0] == 0 && data[1] == 0xFF {
        EraseApplication(chip, c.pages * |chip.mem.buffer|, c.pages);
        isSecure := false;
      }
    }

    method ProcessBootloaderCommand()
      requires Valid()
      modifies this, chip
      ensures Valid() && View() == ProcessCommand(c, old(View())) && Endpoint() == old(Endpoint())
    {
      hide MemProg, MemRead, WriteCommand;
      if isSecure {
        if !((command == WRITE && data[0] == 0 && data[1] == 0xFF) || command == READ) {
          dfuState := dfuERROR;
          dfuStatus := errWRITE;
          return;
        }
      }
      if command == PROG_START {
        ProcessMemProgCommand();
      } else if command == DISP_DATA {
        ProcessMemReadCommand();
      } else if command == WRITE {
        ProcessWriteCommand();
      } else if command == READ {
        if data[0] <= 1 {
          responseByte := c.info(data[0], data[1]);
        }
      } else if command == CHANGE_BASE {
        if data[0] == 3 && data[1] == 0 {
          flash64KBPage := data[2];
        }
      }
    }

    /** Command byte and parameters from the data stage of a download. */
    method LoadSentCommand()
      requires |data| == 5 && |pending| > 0
      modifies this`bank, this`pending, this`command, this`data, this`dataSize
      ensures (View(), Endpoint()) == LoadCommand(old(View()), old(pending))
    {
      hide LoadParameters;
      var received := NextPacket();
      command := ReadByte();
      dataSize := (dataSize - 1) % 65536;
      LoadParameterBytes(old(dataSize) - 1);
    }

    /** The parameter loop, with `count` bytes of the transfer left. */
    method LoadParameterBytes(ghost count: int)
      requires |data| == 5 && dataSize == count % 65536
      modifies this`bank, this`data, this`dataSize
      ensures var n := Min(5, |old(bank)|);
              && data == LoadParameters(old(data), old(bank), n) && bank == old(bank)[n..]
              && dataSize == (count - n) % 65536
    {
      hide LoadParameters;
      ghost var d0, b0 := data, bank;
      var dataByte := 0;
      ParametersEmpty(d0, b0);
      while dataByte < 5 && |bank| > 0
        invariant 0 <= dataByte <= 5 && dataByte <= |b0| && bank == b0[dataByte..]
        invariant data == LoadParameters(d0, b0, dataByte)
        invariant dataSize == (count - dataByte) % 65536
      {
        var b := ReadByte();
        ParametersNext(d0, b0, dataByte);
        data := data[dataByte := b];
        CountDown(count - dataByte);
        dataSize := (dataSize - 1) % 65536;
        dataByte := dataByte + 1;
      }
      assert dataByte == Min(5, |b0|);
    }

    /** The download branch once the state is dfuDNLOAD_IDLE. */
    method ReceiveFirmware()
      requires Valid()
      modifies this, chip
      ensures Valid() && View() == Receive(old(View()), old(Endpoint()))
    {
      hide ProgramWords, ProgramEeprom, Discard;
      if dataSize == 0 {
        dfuState := dfuIDLE;
        return;
      }
      DiscardFillerBytes(FILLER);
      DiscardFillerBytes(startAddr % PACKET);
      var bytesRemaining := (endAddr - startAddr + 1) % 65536;
      if data[0] == 0 {
        var complete := ProgramFlash(bytesRemaining / 2);
        if !complete {
          return;
        }
        startAddr := endAddr;
      } else {
        var complete := ProgramEEPROM(bytesRemaining);
        if !complete {
          return;
        }
      }
      DiscardFillerBytes(SUFFIX);
    }

    method DownloadRequest()
      requires Valid() && bank == []
      modifies this, chip
      ensures Valid() && View() == Download(c, old(View()), old(pending))
    {
      hide ProcessCommand, Receive, LoadCommand, ValidDfu;
      if waitForExit {
        ProcessBootloaderCommand();
        waitForExit := false;
        KeepsValid(c, View(), View().(waitForExit := true));
      }
      if dataSize > 0 {
        if |pending| == 0 {
          return;
        }
        assert |data| == 5 by { DfuSizes(c, View()); }
        LoadKeepsValid(c, View(), pending);
        LoadSentCommand();
        ProcessBootloaderCommand();
      }
      if dfuState == dfuDNLOAD_IDLE {
        DfuSizes(c, View());
        ReceiveNothing(View(), Endpoint());
        ReceiveFirmware();
      }
    }

    /** The word and byte loops of the upload branch. */
    method ReadMemory(isFlash: bool, n: nat) returns (sent: seq<byte>)
      requires isFlash ==> n % 2 == 0
      ensures sent == if isFlash then Cells(chip.mem.flash, flash64KBPage as nat * 65536 + startAddr, n)
                      else Cells(chip.eeprom, startAddr, n)
    {
      sent := [];
      var k := 0;
      if isFlash {
        var currFlashAddress: nat := flash64KBPage as nat * 65536 + startAddr;
        ghost var a: nat := currFlashAddress;
        while k < n
          invariant 0 <= k <= n && k % 2 == 0 && currFlashAddress == a + k && sent == Cells(chip.mem.flash, a, k)
        {
          sent := sent + [Cell(chip.mem.flash, currFlashAddress), Cell(chip.mem.flash, currFlashAddress + 1)];
          currFlashAddress := currFlashAddress + 2;
          k := k + 2;
        }
      } else {
        while k < n
          invariant 0 <= k <= n && sent == Cells(chip.eeprom, startAddr, k)
        {
          sent := sent + [Cell(chip.eeprom, startAddr + k)];
          k := k + 1;
        }
      }
    }

    method UploadRequest() returns (sent: seq<byte>)
      requires Valid()
      modifies this`startAddr, this`dfuState
      ensures Valid() && (View(), sent) == UploadData(old(View()))
    {
      hide Cells;
      if dfuState != dfuUPLOAD_IDLE {
        if dfuState == dfuERROR && data[0] == 1 {
          sent := [(startAddr % 256) as byte, (startAddr / 256) as byte];
        } else {
          sent := [responseByte];
        }
        return;
      }
      var bytesRemaining := (endAddr - startAddr + 1) % 65536;
      sent := [];
      if data[0] == 0 {
        sent := ReadMemory(true, bytesRemaining / 2 * 2);
        startAddr := endAddr;
      } else if data[0] == 2 {
        sent := ReadMemory(false, bytesRemaining);
        startAddr := (startAddr + bytesRemaining) % 65536;
      }
      dfuState := dfuIDLE;
    }

    method ControlRequest(r: Request) returns (sent: seq<byte>)
      requires Valid()
      modifies this, chip
      ensures Valid() && (View(), sent) == Step(c, old(View()), r)
    {
      hide Download, UploadData;
      sent := [];
      if r.NotForUs? {
        return;
      }
      dataSize := r.wLength % 65536;
      match r {
        case Dnload(_, packets) =>
          bank, pending := [], packets;
          DownloadRequest();
        case Upload(_) =>
          sent := UploadRequest();
        case GetStatus(_) =>
          sent := [StatusNumber(dfuStatus), 0, 0, 0, StateNumber(dfuState), 0];
        case ClrStatus(_) =>
          dfuStatus := OK;
        case GetState(_) =>
          sent := [StateNumber(dfuState)];
        case Abort(_) =>
          dfuState := dfuIDLE;
        case Unknown(_) =>
      }
    }
  }

  lemma ParametersEmpty(d: seq<byte>, bank: seq<byte>)
    requires |d| == 5
    ensures LoadParameters(d, bank, 0) == d
  {
    assert bank[..0] + d[0..] == d;
  }

  lemma ParametersNext(d: seq<byte>, bank: seq<byte>, n: nat)
    requires |d| == 5 && n < 5 && n < |bank|
    ensures LoadParameters(d, bank, n + 1) == LoadParameters(d, bank, n)[n := bank[n]]
  {
  }

  lemma CountDown(x: int)
    ensures (x % 65536 - 1) % 65536 == (x - 1) % 65536
  {
  }

  lemma ReceiveNothing(s: Dfu, q: Queue)
    requires ValidMemory(s.m) && |s.data| == 5 && s.start < 65536
    ensures s.dataSize == 0 ==> Receive(s, q) == s.(state := dfuIDLE)
  {
    hide ProgramWords, ProgramEeprom, Discard;
  }

  lemma KeepsValid(c: Config, s: Dfu, t: Dfu)
    requires s == t.(waitForExit := s.waitForExit)
    ensures ValidDfu(c, s) == ValidDfu(c, t)
  {
  }

  lemma DfuSizes(c: Config, s: Dfu)
    requires ValidDfu(c, s)
    ensures |s.data| == 5 && ValidMemory(s.m) && s.start < 65536
  {
  }

  lemma LoadKeepsValid(c: Config, s: Dfu, packets: seq<seq<byte>>)
    requires ValidDfu(c, s) && |packets| > 0
    ensures ValidDfu(c, LoadCommand(s, packets).0)
  {
  }

  lemma FirstUsedUnique(flash: seq<byte>, n: nat, found: bool, first: nat)
    requires n <= |flash| && (found <==> flash[..n] != Blank(n))
    requires found ==> first < n && flash[first] != BLANK && flash[..first] == Blank(first)
    ensures FirstUsed(flash, n) == if found then first else n
  {
    hide FirstUsed;
    var k := FirstUsed(flash, n);
    assert k < n ==> flash[..n][k] == flash[k];
    assert forall i | 0 <= i < k :: flash[..k][i] == BLANK;
    if found {
      assert forall i | 0 <= i < first :: flash[..first][i] == BLANK;
    }
  }
}
