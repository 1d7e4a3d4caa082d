/** The Printer bootloader's own code: the parser fields it updates in place,
    the SPM calls it makes and the packet loop of main. */
module PrinterDevice {
  import opened Spm
  import opened IntelHex
  import opened Device
  import opened Printer
  import opened PrinterPlacement
  import opened PrinterRuns

  lemma WordKeeps(c: Part, p: Parser)
    requires ValidPart(c)
    ensures WordRead(c, p).p.dataRem == p.dataRem
  {
    hide DataWord;
    DataWordKeeps(c, p, p.prevData, p.data);
  }

  class Bootloader {
    const part: Part
    const chip: Chip
    var parserState: Phase
    var prevData: byte
    var data: byte
    var readMSB: bool
    var recordType: byte
    var dataRem: byte
    var checksum: byte
    var pageStartAddress: nat
    var currBaseAddress: nat
    var currAddress: nat
    var pageDirty: bool
    var runBootloader: bool

    ghost predicate Valid()
      reads this, chip
    {
      ValidPart(part) && |chip.mem.buffer| == part.page
    }

    ghost function State(): (p: Parser)
      reads this
    {
      Parser(parserState, prevData, data, readMSB, recordType, dataRem, checksum,
             pageStartAddress, currBaseAddress, currAddress, pageDirty, runBootloader)
    }

    ghost function View(): (l: Loader)
      reads this, chip
    {
      Loader(State(), chip.mem)
    }

    constructor (part: Part, chip: Chip)
      requires ValidPart(part) && |chip.mem.buffer| == part.page
      ensures Valid() && this.part == part && this.chip == chip && Fresh(State())
    {
      this.part, this.chip := part, chip;
      parserState, prevData, data, readMSB := WaitLine, 0, 0, false;
      recordType, dataRem, checksum := 0, 0, 0;
      pageStartAddress, currBaseAddress, currAddress := 0, 0, 0;
      pageDirty, runBootloader := false, true;
    }

    method FlushPageIfRequired()
      requires Valid()
      modifies this, chip`mem
      ensures Valid() && View() == Apply(old(View()), Flush(part, old(State())))
    {
      ghost var w := WriteOp(pageStartAddress);
      ExecThree(chip.mem, w, w, w);
      if !pageDirty {
        return;
      }
      var newPageStartAddress := PageOf(currAddress, part.page);
      if pageStartAddress != newPageStartAddress {
        chip.PageWrite(pageStartAddress);
        pageStartAddress := newPageStartAddress;
        pageDirty := false;
      }
    }

    /** The data branch of READ_DATA: one completed word. */
    method StoreWord()
      requires Valid()
      modifies this, chip`mem
      ensures Valid() && View() == Apply(old(View()), DataWord(part, old(State()), old(prevData), old(data)))
    {
      hide PageOf, Offset, Write, Fill, Erase, ExecAll, Flush;
      ghost var m0, p0 := chip.mem, State();
      ghost var e, f := EraseOp(pageStartAddress), FillOp(currAddress, prevData, data);
      if !pageDirty {
        chip.PageErase(pageStartAddress);
        pageDirty := true;
      }
      ghost var m1 := chip.mem;
      chip.PageFill(currAddress, prevData, data);
      currAddress := currAddress + 2;
      ghost var tail := Flush(part, State()).ops;
      FlushPageIfRequired();
      PrefixErased(m1, f, tail);
      PrefixErased(m0, e, [f] + tail);
      assert [] + [f] + tail == [f] + tail && [e] + [f] + tail == [e] + ([f] + tail);
    }

    /** READ_DATA with a completed byte in `data`. */
    method ReadDataByte()
      requires Valid()
      modifies this, chip`mem
      ensures Valid() && View() == Apply(old(View()), DataByte(part, old(State())))
    {
      hide PageOf, Offset, WordRead, ExecAll;
      ExecNothing(View(), State());
      dataRem := ((dataRem as int + 255) % 256) as byte;
      if currAddress >= part.boot {
        parserState := WaitLine;
        pageDirty := false;
        return;
      }
      if dataRem % 2 == 1 {
        prevData := data;
        return;
      }
      WordKeeps(part, State());
      ReadWord();
      if dataRem == 0 {
        parserState := Checksum;
      }
    }

    /** The switch on the record type once a word is complete. */
    method ReadWord()
      requires Valid()
      modifies this, chip`mem
      ensures Valid() && View() == Apply(old(View()), WordRead(part, old(State())))
    {
      hide DataWord, ExecAll;
      ExecNothing(View(), State());
      var newDataWord := data as nat * 256 + prevData as nat;
      if recordType == DATA_RECORD {
        StoreWord();
      } else if recordType == EXTENDED_SEGMENT {
        currBaseAddress := newDataWord * 16;
      } else if recordType == EXTENDED_LINEAR {
        currBaseAddress := newDataWord * 65536;
      }
    }

    /** The switch of ParseIntelHEXByte, with a completed byte in `data`. */
    method ProcessByte()
      requires Valid() && parserState != WaitLine && !readMSB
      modifies this, chip`mem
      ensures Valid() && View() == Apply(old(View()), TakeByte(part, old(State()), old(data)))
    {
      hide PageOf, Offset, DataByte, ChecksumByte, ExecAll;
      ExecNothing(View(), State());
      if parserState != Checksum {
        checksum := ((checksum as int + data as int) % 256) as byte;
      }
      match parserState {
        case ByteCount =>
          dataRem := data;
          parserState := AddressHigh;
        case AddressHigh =>
          currAddress := currAddress + data as nat * 256;
          parserState := AddressLow;
        case AddressLow =>
          currAddress := currAddress + data as nat;
          parserState := RecordType;
        case RecordType =>
          recordType := data;
          parserState := if dataRem != 0 then ReadData else Checksum;
        case ReadData =>
          ReadDataByte();
        case Checksum =>
          VerifyChecksum();
      }
    }

    /** The CHECKSUM case. */
    method VerifyChecksum()
      requires Valid()
      modifies this, chip`mem
      ensures Valid() && View() == Apply(old(View()), ChecksumByte(part, old(State())))
    {
      hide PageOf, Offset, Flush, ExecAll, Complement;
      ExecNothing(View(), State());
      if data == Complement(checksum as nat) {
        FlushKeeps(part, State());
        FlushPageIfRequired();
        if recordType == EOF_RECORD {
          runBootloader := false;
        }
      }
    }

    method ParseIntelHEXByte(readCharacter: char)
      requires Valid()
      modifies this, chip`mem
      ensures Valid() && View() == Apply(old(View()), Step(part, old(State()), readCharacter))
    {
      hide DigitStep, ExecAll, HexToDecimal;
      ExecNothing(View(), State());
      if parserState == WaitLine || readCharacter == ':' {
        checksum := 0;
        currAddress := currBaseAddress;
        readMSB := false;
        if readCharacter == ':' {
          parserState := ByteCount;
        }
        return;
      }
      var readCharacterDec := HexToDecimal(readCharacter);
      if readCharacterDec < 0 {
        return;
      }
      ReadDigit(readCharacterDec);
    }

    /** The rest of ParseIntelHEXByte, for a digit of a record. */
    method ReadDigit(readCharacterDec: int)
      requires Valid() && parserState != WaitLine && 0 <= readCharacterDec < 16
      modifies this, chip`mem
      ensures Valid() && View() == Apply(old(View()), DigitStep(part, old(State()), readCharacterDec))
    {
      hide TakeByte, ExecAll;
      ExecNothing(View(), State());
      ghost var before := State();
      data := ((data as int * 16 + readCharacterDec) % 256) as byte;
      assert data == ShiftIn(before.data, readCharacterDec);
      readMSB := !readMSB;
      if readMSB {
        return;
      }
      TakeByteIgnoresData(part, before, State(), data);
      ProcessByte();
    }

    /** One received packet: every byte is parsed, also after the flag drops. */
    method ReceivePacket(packet: string)
      requires Valid()
      modifies this, chip`mem
      ensures Valid() && View() == Run(part, old(View()), packet)
    {
      hide Step, Apply, ValidLoader, ValidPart;
      ghost var l0 := View();
      var i := 0;
      assert packet[..0] == [];
      while i < |packet|
        invariant 0 <= i <= |packet| && Valid() && ValidLoader(part, l0)
        invariant View() == Run(part, l0, packet[..i])
      {
        ghost var before := View();
        ParseIntelHEXByte(packet[i]);
        RunAppend(part, l0, packet[..i], [packet[i]]);
        RunSingle(part, before, packet[i]);
        assert packet[..i + 1] == packet[..i] + [packet[i]];
        i := i + 1;
      }
      assert packet[..i] == packet;
    }

    /** The loop of main over the packets the host sends. */
    method Session(packets: seq<string>)
      requires Valid()
      modifies this, chip`mem
      ensures Valid() && View() == Feed(part, old(View()), packets)
    {
      hide Run;
      var i := 0;
      assert packets[0..] == packets;
      while runBootloader && i < |packets|
        invariant 0 <= i <= |packets| && Valid()
        invariant Feed(part, old(View()), packets) == Feed(part, View(), packets[i..])
      {
        assert packets[i..][0] == packets[i] && packets[i..][1..] == packets[i + 1..];
        ReceivePacket(packets[i]);
        i := i + 1;
      }
    }
  }
}
