/** The mass-storage bootloader's own code: FAT table and block buffers updated
    in place, the block loops over flash and EEPROM, and the SCSI layer. */
module MassStorageDevice {
  import opened Spm
  import opened Device
  import opened Fat12
  import opened VirtualFat
  import opened Scsi

  method UpdateFAT12ClusterEntry(fatTable: array<byte>, index: nat, chainEntry: nat)
    requires fatTable.Length == 512 && chainEntry < 65536
    modifies fatTable
    ensures fatTable[..] == UpdateEntry(old(fatTable[..]), index, chainEntry)
  {
    var fatOffset := (index + index / 2) % 256;
    var upperNibble := index % 2 != 0;
    if upperNibble {
      fatTable[fatOffset] := (fatTable[fatOffset] as int % 16 + 16 * (chainEntry % 16)) as byte;
      fatTable[fatOffset + 1] := (chainEntry / 16 % 256) as byte;
    } else {
      fatTable[fatOffset] := (chainEntry % 256) as byte;
      fatTable[fatOffset + 1] := Or((fatTable[fatOffset] / 16) * 16, (chainEntry / 256) as byte);
    }
  }

  lemma ClusterWrap(index: nat, i: nat)
    ensures ((index + i) % 65536 + 1) % 65536 == (index + i + 1) % 65536
  {
  }

  lemma ChainStep(t: seq<byte>, start: nat, length: nat, n: nat)
    requires |t| == 512
    ensures ChainUpTo(t, start, length, n)
            == if n == 0 then t
               else UpdateEntry(ChainUpTo(t, start, length, n - 1), (start + n - 1) % 65536, Next(start, length, n - 1))
  {
    hide UpdateEntry;
  }

  method UpdateFAT12ClusterChain(fatTable: array<byte>, index: nat, chainLength: byte)
    requires fatTable.Length == 512
    modifies fatTable
    ensures fatTable[..] == UpdateChain(old(fatTable[..]), index, chainLength as nat)
  {
    hide UpdateEntry, ChainUpTo;
    var i: byte := 0;
    ghost var t0, n := fatTable[..], chainLength as nat;
    ChainStep(t0, index, n, 0);
    while i < chainLength
      invariant 0 <= i <= chainLength
      invariant fatTable[..] == ChainUpTo(t0, index, n, i as nat)
    {
      ChainStep(t0, index, n, i as nat + 1);
      ClusterWrap(index, i as nat);
      var currentCluster := (index + i as nat) % 65536;
      var nextCluster := (currentCluster + 1) % 65536;
      if i == chainLength - 1 {
        nextCluster := 0xFFF;
      }
      UpdateFAT12ClusterEntry(fatTable, currentCluster, nextCluster);
      i := i + 1;
    }
  }

  class Disk {
    const g: Geometry
    const boot: seq<byte>
    const chip: Chip
    var dir: seq<byte>

    ghost function View(): (v: Volume)
      reads this, chip
    {
      Volume(chip.mem, chip.eeprom, dir)
    }

    ghost predicate Valid()
      reads this, chip
    {
      ValidVolume(g, View()) && |boot| == SECTOR && BufferEmpty(chip.mem)
    }

    constructor (g: Geometry, boot: seq<byte>, chip: Chip, dir: seq<byte>)
      requires ValidVolume(g, Volume(chip.mem, chip.eeprom, dir)) && |boot| == SECTOR && BufferEmpty(chip.mem)
      ensures Valid() && this.g == g && this.boot == boot && this.chip == chip && this.dir == dir
    {
      this.g, this.boot, this.chip, this.dir := g, boot, chip, dir;
    }

    /** The read half of ReadWriteFLASHFileBlock. */
    method ReadFLASHFileBlock(blockNumber: nat, blockBuffer: array<byte>)
      requires Valid() && blockBuffer.Length == SECTOR && blockNumber > ROOT_BLOCK
      modifies blockBuffer
      ensures !InFlash(g, View(), blockNumber) ==> blockBuffer[..] == old(blockBuffer[..])
      ensures InFlash(g, View(), blockNumber) ==>
                && StartBlock(FlashStart(dir)) <= blockNumber
                && Address(FlashStart(dir), blockNumber) + SECTOR <= |chip.mem.flash|
                && blockBuffer[..] == chip.mem.flash[Address(FlashStart(dir), blockNumber)..][..SECTOR]
    {
      hide FileSectors, StartBlock, Offset;
      if !InFile(FlashStart(dir), g.flashBytes, blockNumber) {
        return;
      }
      BlockBounds(g, View(), blockNumber);
      var flashAddress := (blockNumber - StartBlock(FlashStart(dir))) * SECTOR;
      ghost var a := flashAddress;
      for i := 0 to SECTOR
        invariant flashAddress == a + i
        invariant blockBuffer[..i] == chip.mem.flash[a..a + i]
      {
        blockBuffer[i] := chip.mem.flash[flashAddress];
        flashAddress := flashAddress + 1;
      }
    }

    /** The write half of ReadWriteFLASHFileBlock: pages are erased at their
        first word and written at their last. */
    method WriteFLASHFileBlock(blockNumber: nat, blockBuffer: array<byte>)
      requires Valid() && blockBuffer.Length == SECTOR && blockNumber > ROOT_BLOCK
      modifies chip`mem
      ensures Valid()
      ensures chip.mem == if InFlash(g, old(View()), blockNumber)
                          then WriteBlock(g, old(View()), blockNumber, blockBuffer[..]).m else old(chip.mem)
    {
      hide FileSectors, StartBlock, Offset, Streamed, Erase, Fill, Write, Put, Programmed, RoundUp, PageOf;
      if !InFile(FlashStart(dir), g.flashBytes, blockNumber) {
        return;
      }
      BlockBounds(g, View(), blockNumber);
      var page := |chip.mem.buffer|;
      var flashAddress := (blockNumber - StartBlock(FlashStart(dir))) * SECTOR;
      ghost var a, m0, data := flashAddress, chip.mem, blockBuffer[..];
      SectorAligned(blockNumber - StartBlock(FlashStart(dir)), page);
      StreamedNothing(m0, a);
      assert data[..0] == [];
      var i := 0;
      while i < SECTOR
        invariant 0 <= i <= SECTOR && i % 2 == 0 && flashAddress == a + i
        invariant |chip.mem.buffer| == page && |chip.mem.flash| == |m0.flash|
        invariant chip.mem == Streamed(m0, a, data[..i])
      {
        StoreWord(flashAddress, blockBuffer[i], blockBuffer[i + 1], page);
        StreamedWord(m0, a, data[..i], data[i], data[i + 1]);
        assert data[..i + 2] == data[..i] + [data[i], data[i + 1]];
        flashAddress := flashAddress + 2;
        i := i + 2;
      }
      assert data[..SECTOR] == data;
      WholeSector(m0, a, data);
    }

    /** One round of the word loop. */
    method StoreWord(flashAddress: nat, lo: byte, hi: byte, page: nat)
      requires chip.Valid() && page == |chip.mem.buffer| && flashAddress % 2 == 0
      modifies chip`mem
      ensures chip.mem == StreamWord(old(chip.mem), flashAddress, lo, hi)
    {
      hide Offset, Erase, Fill, Write, PageOf;
      OffsetIsRemainder(flashAddress, page);
      OffsetIsRemainder(flashAddress + 2, page);
      if flashAddress % page == 0 {
        chip.PageErase(flashAddress);
      }
      chip.PageFill(flashAddress, lo, hi);
      if (flashAddress + 2) % page == 0 {
        PageBack(flashAddress, page);
        SamePage(chip.mem, flashAddress, flashAddress + 2 - page);
        chip.PageWrite(flashAddress + 2 - page);
      }
    }

    /** ReadWriteEEPROMFileBlock, reading. */
    method ReadEEPROMFileBlock(blockNumber: nat, blockBuffer: array<byte>)
      requires Valid() && blockBuffer.Length == SECTOR && blockNumber > ROOT_BLOCK
      modifies blockBuffer
      ensures !InEeprom(g, View(), blockNumber) ==> blockBuffer[..] == old(blockBuffer[..])
      ensures InEeprom(g, View(), blockNumber) ==>
                && StartBlock(EepromStart(dir)) <= blockNumber
                && Address(EepromStart(dir), blockNumber) + SECTOR <= |chip.eeprom|
                && blockBuffer[..] == chip.eeprom[Address(EepromStart(dir), blockNumber)..][..SECTOR]
    {
      hide FileSectors, StartBlock, Offset;
      if !InFile(EepromStart(dir), g.eepromBytes, blockNumber) {
        return;
      }
      BlockBounds(g, View(), blockNumber);
      var eepromAddress := (blockNumber - StartBlock(EepromStart(dir))) * SECTOR;
      ghost var a := eepromAddress;
      for i := 0 to SECTOR
        invariant eepromAddress == a + i
        invariant blockBuffer[..i] == chip.eeprom[a..a + i]
      {
        blockBuffer[i] := chip.eeprom[eepromAddress];
        eepromAddress := eepromAddress + 1;
      }
    }

    /** ReadWriteEEPROMFileBlock, writing. */
    method WriteEEPROMFileBlock(blockNumber: nat, blockBuffer: array<byte>)
      requires Valid() && blockBuffer.Length == SECTOR && blockNumber > ROOT_BLOCK
      modifies chip`eeprom
      ensures Valid()
      ensures chip.eeprom == if InEeprom(g, old(View()), blockNumber)
                             then WriteBlock(g, old(View()), blockNumber, blockBuffer[..]).eeprom else old(chip.eeprom)
    {
      hide FileSectors, StartBlock, Offset, Put;
      if !InFile(EepromStart(dir), g.eepromBytes, blockNumber) {
        return;
      }
      BlockBounds(g, View(), blockNumber);
      var eepromAddress := (blockNumber - StartBlock(EepromStart(dir))) * SECTOR;
      ghost var a, e0 := eepromAddress, chip.eeprom;
      PutNothing(e0, a);
      assert blockBuffer[..0] == [];
      for i := 0 to SECTOR
        invariant eepromAddress == a + i && |chip.eeprom| == |e0|
        invariant chip.eeprom == Put(e0, a, blockBuffer[..i])
      {
        PutByte(e0, a, blockBuffer[..i], blockBuffer[i]);
        chip.eeprom := chip.eeprom[eepromAddress := blockBuffer[i]];
        eepromAddress := eepromAddress + 1;
        assert blockBuffer[..i + 1] == blockBuffer[..i] + [blockBuffer[i]];
      }
      assert blockBuffer[..SECTOR] == blockBuffer[..];
    }

    method VirtualFATWriteBlock(blockNumber: nat, received: seq<byte>)
      requires Valid() && |received| == SECTOR
      modifies this`dir, chip
      ensures Valid() && View() == WriteBlock(g, old(View()), blockNumber, received)
    {
      hide FileSectors, StartBlock, Offset, Put, InFile;
      var blockBuffer := new byte[SECTOR](i requires 0 <= i < SECTOR => received[i]);
      assert blockBuffer[..] == received;
      if blockNumber <= 2 {
        return;
      }
      if blockNumber == ROOT_BLOCK {
        dir := blockBuffer[..DIR_BYTES];
      } else {
        WriteFLASHFileBlock(blockNumber, blockBuffer);
        WriteEEPROMFileBlock(blockNumber, blockBuffer);
      }
    }

    method BuildFATBlock(blockBuffer: array<byte>)
      requires Valid() && blockBuffer.Length == SECTOR && blockBuffer[..] == Zeros(SECTOR)
      modifies blockBuffer
      ensures blockBuffer[..] == FatBlock(g, dir)
    {
      hide UpdateEntry, FileClusters, FlashStart, EepromStart, UpdateChain;
      UpdateFAT12ClusterEntry(blockBuffer, 0, MEDIA_ENTRY);
      UpdateFAT12ClusterEntry(blockBuffer, 1, END_OF_CHAIN);
      UpdateFAT12ClusterChain(blockBuffer, FlashStart(dir), (FileClusters(g.flashBytes) % 256) as byte);
      UpdateFAT12ClusterChain(blockBuffer, EepromStart(dir), (FileClusters(g.eepromBytes) % 256) as byte);
    }

    method VirtualFATReadBlock(blockNumber: nat) returns (sent: seq<byte>)
      requires Valid()
      ensures sent == ReadBlock(g, boot, View(), blockNumber)
    {
      hide FileSectors, StartBlock, Offset, InFile, FatBlock;
      var blockBuffer := new byte[SECTOR](_ => 0);
      assert blockBuffer[..] == Zeros(SECTOR);
      if blockNumber == 0 {
        sent := boot;
      } else if blockNumber <= 2 {
        BuildFATBlock(blockBuffer);
        sent := blockBuffer[..];
      } else if blockNumber == ROOT_BLOCK {
        sent := dir + blockBuffer[DIR_BYTES..];
      } else {
        ReadFLASHFileBlock(blockNumber, blockBuffer);
        ReadEEPROMFileBlock(blockNumber, blockBuffer);
        sent := blockBuffer[..];
      }
    }

    /** SCSI_Command_ReadWrite_10: the block address keeps the low 16 bits of the
        big-endian LBA; the data phase of a write supplies one block a round. */
    method ReadWrite10(cdb: seq<byte>, isDataRead: bool, received: seq<seq<byte>>) returns (reply: Reply)
      requires Valid() && |cdb| == 16
      requires !isDataRead ==> |received| == TotalBlocks(cdb) && Sectors(received)
      modifies this`dir, chip
      ensures Valid()
      ensures (View(), reply) == Perform(g, boot, old(View()), CommandOf(cdb, isDataRead, received))
    {
      hide ReadBlock, WriteBlock, ValidVolume, FileSectors;
      var blockAddress, totalBlocks := BlockAddress(cdb), TotalBlocks(cdb);
      ghost var v0 := View();
      if blockAddress >= MediaBlocks(g) {
        return Rejected;
      }
      var sent: seq<seq<byte>> := [];
      for i := 0 to totalBlocks
        invariant Valid() && |boot| == SECTOR && ValidVolume(g, v0)
        invariant isDataRead ==> View() == v0 && sent == ReadRange(g, boot, v0, blockAddress, i)
        invariant !isDataRead ==> View() == WriteRange(g, v0, blockAddress, received[..i])
      {
        if isDataRead {
          var block := VirtualFATReadBlock((blockAddress + i) % BLOCKS);
          sent := sent + [block];
        } else {
          assert received[..i + 1][..i] == received[..i] && received[..i + 1][i] == received[i];
          VirtualFATWriteBlock((blockAddress + i) % BLOCKS, received[i]);
        }
      }
      assert received[..|received|] == received;
      reply := if isDataRead then Data(sent) else Written;
    }
  }

  /** The 16-bit block address and count of a READ(10) or WRITE(10) CDB. */
  function BlockAddress(cdb: seq<byte>): (b: nat)
    requires |cdb| == 16
    ensures b < BLOCKS
  {
    cdb[4] as nat * 256 + cdb[5] as nat
  }

  /** The 32-bit logical block address, most significant byte first. */
  function LogicalBlock(cdb: seq<byte>): (n: nat)
    requires |cdb| == 16
  {
    ((cdb[2] as nat * 256 + cdb[3] as nat) * 256 + cdb[4] as nat) * 256 + cdb[5] as nat
  }

  lemma LowBits(hi: nat, lo: nat)
    requires lo < 65536
    ensures (hi * 65536 + lo) % 65536 == lo
  {
  }

  /** The device serves the address modulo 65536, so it rejects exactly the commands
      whose address is at or above the media size after that; this is what the media
      size calls for exactly when the address fits the media or wraps past it too. */
  lemma RejectedIff(g: Geometry, boot: seq<byte>, v: Volume, cdb: seq<byte>, isDataRead: bool, received: seq<seq<byte>>)
    requires ValidVolume(g, v) && |boot| == SECTOR && |cdb| == 16 && Sectors(received)
    ensures var lba, media := LogicalBlock(cdb), MediaBlocks(g);
            var rejected := Perform(g, boot, v, CommandOf(cdb, isDataRead, received)).1 == Rejected;
            && BlockAddress(cdb) == lba % 65536
            && (rejected <==> lba % 65536 >= media)
            && ((rejected <==> lba >= media) <==> lba < media || lba % 65536 >= media)
  {
    hide ValidVolume, MediaBlocks, ReadRange, WriteRange;
    LowBits(cdb[2] as nat * 256 + cdb[3] as nat, BlockAddress(cdb));
  }

  function TotalBlocks(cdb: seq<byte>): (n: nat)
    requires |cdb| == 16
    ensures n < 65536
  {
    cdb[7] as nat * 256 + cdb[8] as nat
  }

  function CommandOf(cdb: seq<byte>, isDataRead: bool, received: seq<seq<byte>>): (c: Command)
    requires |cdb| == 16
    ensures c.block < BLOCKS
  {
    if isDataRead then Read10(BlockAddress(cdb), TotalBlocks(cdb)) else Write10(BlockAddress(cdb), received)
  }

  /** A READ(10) or WRITE(10) command block as SBC-3 lays it out: operation code,
      flags, four address bytes, group number, two length bytes and control, numbers
      most significant byte first, padded to the 16 bytes of a bulk-only wrapper. */
  function Cdb(code: byte, lba: nat, count: nat): (cdb: seq<byte>)
    requires lba < 0x1_0000_0000 && count < 65536
    ensures |cdb| == 16
  {
    [code, 0,
     (lba / 16777216) as byte, (lba / 65536 % 256) as byte, (lba / 256 % 256) as byte, (lba % 256) as byte,
     0, (count / 256) as byte, (count % 256) as byte, 0, 0, 0, 0, 0, 0, 0]
  }

  lemma CdbFields(code: byte, lba: nat, count: nat)
    requires lba < 0x1_0000_0000 && count < 65536
    ensures BlockAddress(Cdb(code, lba, count)) == lba % 65536 && TotalBlocks(Cdb(code, lba, count)) == count
  {
  }

  /** A host that asks for `count` blocks from `lba` on gets that many, each the block
      at its own address modulo 65536. */
  lemma ReadServed(g: Geometry, boot: seq<byte>, v: Volume, lba: nat, count: nat)
    requires ValidVolume(g, v) && |boot| == SECTOR && lba < 0x1_0000_0000 && count < 65536
    requires lba % 65536 < MediaBlocks(g)
    ensures var reply := Perform(g, boot, v, CommandOf(Cdb(0x28, lba, count), true, [])).1;
            && reply.Data? && |reply.blocks| == count
            && forall i | 0 <= i < count :: reply.blocks[i] == ReadBlock(g, boot, v, (lba + i) % 65536)
  {
    hide ValidVolume, ReadBlock, MediaBlocks, Cdb;
    CdbFields(0x28, lba, count);
    RangeBlocks(g, boot, v, lba % 65536, count);
    var blocks := ReadRange(g, boot, v, lba % 65536, count);
    forall i | 0 <= i < count ensures blocks[i] == ReadBlock(g, boot, v, (lba + i) % 65536) {
      WrapSum(lba, i);
    }
  }

  lemma WrapSum(a: nat, i: nat)
    ensures (a % 65536 + i) % 65536 == (a + i) % 65536
  {
  }

  lemma {:induction false} RangeBlocks(g: Geometry, boot: seq<byte>, v: Volume, block: nat, count: nat)
    requires ValidVolume(g, v) && |boot| == SECTOR
    ensures forall i | 0 <= i < count ::
              ReadRange(g, boot, v, block, count)[i] == ReadBlock(g, boot, v, (block + i) % BLOCKS)
    decreases count
  {
    hide ValidVolume, ReadBlock;
    if count > 0 {
      RangeBlocks(g, boot, v, block, count - 1);
    }
  }

  lemma {:induction false} SectorAligned(k: nat, page: nat)
    requires ValidPage(page) && Aligned(SECTOR, page)
    ensures Aligned(k * SECTOR, page)
  {
    hide Offset;
    if k == 0 {
      AlignedZero(page);
    } else {
      SectorAligned(k - 1, page);
      OffsetShift((k - 1) * SECTOR, SECTOR, page);
    }
  }

  /** The page that ends at a + 2 starts a page length before. */
  lemma PageBack(a: nat, page: nat)
    requires ValidPage(page) && a % 2 == 0 && Aligned(a + 2, page)
    ensures a + 2 >= page && PageOf(a, page) == a + 2 - page
  {
    OffsetNext(a, page);
  }

  lemma WholeSector(m: Memory, a: nat, data: seq<byte>)
    requires ValidMemory(m) && Aligned(a, |m.buffer|) && Aligned(SECTOR, |m.buffer|)
    requires |data| == SECTOR && a + SECTOR <= |m.flash|
    ensures Streamed(m, a, data) == Memory(Put(m.flash, a, data), Blank(|m.buffer|))
  {
    hide Offset, Put, Streamed;
    StreamedFlushed(m, a, data);
    assert data + Blank(0) == data;
  }
}
