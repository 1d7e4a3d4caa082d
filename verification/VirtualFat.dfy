/** The virtual FAT12 volume of the mass-storage bootloader: block reads and
    writes synthesised over flash, EEPROM and the directory block. */
module VirtualFat {
  import opened Spm
  import opened Fat12

  // ----- layout -----

  const SECTOR: nat := 512
  const SECTORS_PER_CLUSTER: nat := 4
  const DATA_START: nat := 4
  const ROOT_BLOCK: nat := 3
  /** Size of FirmwareFileEntries: five directory entries of 32 bytes. */
  const DIR_BYTES: nat := 160

  /** FILE_SECTORS and FILE_CLUSTERS. */
  function FileSectors(size: nat): (n: nat)
    ensures 512 * n >= size && (size > 0 ==> 512 * (n - 1) < size)
  {
    size / 512 + (if size % 512 != 0 then 1 else 0)
  }

  function FileClusters(size: nat): (n: nat)
    ensures 2048 * n >= size && (size > 0 ==> 2048 * (n - 1) < size)
  {
    size / 2048 + (if size % 2048 != 0 then 1 else 0)
  }

  /** FLASH_FILE_SIZE_BYTES and EEPROM_FILE_SIZE_BYTES (the latter is E2END). */
  datatype Geometry = Geometry(flashBytes: nat, eepromBytes: nat)

  /** LUN_MEDIA_BLOCKS. */
  function MediaBlocks(g: Geometry): (n: nat) {
    FileSectors(g.flashBytes) + FileSectors(g.eepromBytes) + 32
  }

  /** First block of a cluster, in the 16-bit arithmetic of the source. */
  function StartBlock(cluster: nat): (b: nat)
    ensures b < 65536
  {
    (DATA_START + (cluster - 2) * SECTORS_PER_CLUSTER) % 65536
  }

  /** The range check of ReadWriteFLASHFileBlock and ReadWriteEEPROMFileBlock. */
  predicate InFile(cluster: nat, size: nat, block: nat) {
    var first := StartBlock(cluster);
    first <= block <= (first + FileSectors(size) - 1) % 65536
  }

  lemma InFileBound(cluster: nat, size: nat, block: nat)
    requires 0 < FileSectors(size) <= 65536 && InFile(cluster, size, block)
    ensures StartBlock(cluster) <= block < StartBlock(cluster) + FileSectors(size)
  {
  }

  /** Default directory: FLASH.BIN from cluster 2, EEPROM.BIN right behind it. */
  function DefaultEepromStart(g: Geometry): (c: nat) {
    2 + FileClusters(g.flashBytes)
  }

  /** The sectors of a file fit its clusters. */
  lemma SectorsFitClusters(size: nat)
    ensures FileSectors(size) <= SECTORS_PER_CLUSTER * FileClusters(size)
    ensures SECTORS_PER_CLUSTER * FileClusters(size) <= FileSectors(size) + 3
  {
    var c, s := FileClusters(size), FileSectors(size);
    if size > 0 {
      assert 512 * (s - 1) < 512 * (4 * c) && 2048 * (c - 1) < 512 * s;
    }
  }

  /** The default layout is consistent for every memory size: the two block
      ranges are disjoint, both end inside the advertised media, and the
      cluster count a FAT driver computes from the boot block covers the last
      cluster, with five to seven clusters to spare. */
  lemma DefaultLayout(g: Geometry)
    requires 0 < g.flashBytes && 0 < g.eepromBytes && MediaBlocks(g) < 65536
    ensures var fs, fl, es, el := 2, FileClusters(g.flashBytes), DefaultEepromStart(g), FileClusters(g.eepromBytes);
            && StartBlock(fs) + FileSectors(g.flashBytes) <= StartBlock(es)
            && StartBlock(es) + SECTORS_PER_CLUSTER * el <= MediaBlocks(g)
            && 5 <= (MediaBlocks(g) - DATA_START) / SECTORS_PER_CLUSTER + 2 - (es + el) <= 7
            && !Clobbers(fs, fl, es, el)
  {
    SectorsFitClusters(g.flashBytes);
    SectorsFitClusters(g.eepromBytes);
  }

  /** Within the reach of the 8-bit table offset the default chains are placed,
      and the volume counts as FAT12 (fewer than 4085 clusters). */
  lemma DefaultPlaced(g: Geometry)
    requires 0 < g.flashBytes && 0 < g.eepromBytes
    requires FileClusters(g.flashBytes) + FileClusters(g.eepromBytes) <= LAST_INDEX - 1
    ensures Placed(2, FileClusters(g.flashBytes), DefaultEepromStart(g), FileClusters(g.eepromBytes))
    ensures (MediaBlocks(g) - DATA_START) / SECTORS_PER_CLUSTER < 4085
  {
    SectorsFitClusters(g.flashBytes);
    SectorsFitClusters(g.eepromBytes);
  }

  // ----- the volume -----

  /** Self-programming memory, EEPROM and the directory entries in RAM. */
  datatype Volume = Volume(m: Memory, eeprom: seq<byte>, dir: seq<byte>)

  /** Pages divide sectors, the FLASH.BIN sectors are backed by flash and the
      EEPROM.BIN sectors by all of EEPROM. */
  predicate ValidVolume(g: Geometry, v: Volume) {
    && ValidMemory(v.m) && Aligned(SECTOR, |v.m.buffer|)
    && |v.dir| == DIR_BYTES
    && 0 < FileSectors(g.flashBytes) <= 65536 && SECTOR * FileSectors(g.flashBytes) <= |v.m.flash|
    && 0 < FileSectors(g.eepromBytes) <= 65536 && SECTOR * FileSectors(g.eepromBytes) <= |v.eeprom|
  }

  /** StartingCluster of the FLASH.BIN and EEPROM.BIN entries (entries 2 and 4,
      bytes 26 and 27). */
  function FlashStart(dir: seq<byte>): (c: nat)
    requires |dir| == DIR_BYTES
  {
    dir[90] as nat + 256 * dir[91] as nat
  }

  function EepromStart(dir: seq<byte>): (c: nat)
    requires |dir| == DIR_BYTES
  {
    dir[154] as nat + 256 * dir[155] as nat
  }

  predicate InFlash(g: Geometry, v: Volume, b: nat)
    requires |v.dir| == DIR_BYTES
  {
    b > ROOT_BLOCK && InFile(FlashStart(v.dir), g.flashBytes, b)
  }

  predicate InEeprom(g: Geometry, v: Volume, b: nat)
    requires |v.dir| == DIR_BYTES
  {
    b > ROOT_BLOCK && InFile(EepromStart(v.dir), g.eepromBytes, b)
  }

  /** Byte address of a file's block. */
  function Address(cluster: nat, b: nat): (a: nat)
    requires StartBlock(cluster) <= b
    ensures a == SECTOR * (b - StartBlock(cluster))
  {
    (b - StartBlock(cluster)) * SECTOR
  }

  lemma BlockBounds(g: Geometry, v: Volume, b: nat)
    requires ValidVolume(g, v)
    ensures InFlash(g, v, b) ==> StartBlock(FlashStart(v.dir)) <= b && Address(FlashStart(v.dir), b) + SECTOR <= |v.m.flash|
    ensures InEeprom(g, v, b) ==> StartBlock(EepromStart(v.dir)) <= b && Address(EepromStart(v.dir), b) + SECTOR <= |v.eeprom|
  {
    if InFlash(g, v, b) {
      InFileBound(FlashStart(v.dir), g.flashBytes, b);
    }
    if InEeprom(g, v, b) {
      InFileBound(EepromStart(v.dir), g.eepromBytes, b);
    }
  }

  function Zeros(n: nat): (z: seq<byte>)
    ensures |z| == n
  {
    seq(n, _ => 0)
  }

  /** The chain lengths handed to the FAT writer as 8-bit values. */
  function FatBlock(g: Geometry, dir: seq<byte>): (t: seq<byte>)
    requires |dir| == DIR_BYTES
    ensures |t| == SECTOR
  {
    FatTable(FlashStart(dir), FileClusters(g.flashBytes) % 256, EepromStart(dir), FileClusters(g.eepromBytes) % 256)
  }

  /** A file 256 clusters longer has the same chain. */
  lemma LengthWraps(g: Geometry, h: Geometry, dir: seq<byte>)
    requires |dir| == DIR_BYTES
    requires FileClusters(h.flashBytes) == FileClusters(g.flashBytes) + 256 && h.eepromBytes == g.eepromBytes
    ensures FatBlock(h, dir) == FatBlock(g, dir)
  {
    hide FileClusters, FatTable;
    var n := FileClusters(g.flashBytes);
    assert (n + 256) % 256 == n % 256;
  }

  /** VirtualFAT_ReadBlock; `boot` is the constant boot sector. */
  function ReadBlock(g: Geometry, boot: seq<byte>, v: Volume, b: nat): (data: seq<byte>)
    requires ValidVolume(g, v) && |boot| == SECTOR
    ensures |data| == SECTOR
  {
    BlockBounds(g, v, b);
    if b == 0 then boot
    else if b <= 2 then FatBlock(g, v.dir)
    else if b == ROOT_BLOCK then v.dir + Zeros(SECTOR - DIR_BYTES)
    else if InEeprom(g, v, b) then
      var a := Address(EepromStart(v.dir), b);
      v.eeprom[a..a + SECTOR]
    else if InFlash(g, v, b) then
      var a := Address(FlashStart(v.dir), b);
      v.m.flash[a..a + SECTOR]
    else Zeros(SECTOR)
  }

  /** VirtualFAT_WriteBlock. */
  function WriteBlock(g: Geometry, v: Volume, b: nat, data: seq<byte>): (r: Volume)
    requires ValidVolume(g, v) && |data| == SECTOR
    ensures ValidVolume(g, r)
    ensures BufferEmpty(v.m) ==> BufferEmpty(r.m)
  {
    BlockBounds(g, v, b);
    if b < ROOT_BLOCK then v
    else if b == ROOT_BLOCK then v.(dir := data[..DIR_BYTES])
    else
      var m := if InFlash(g, v, b)
               then Memory(Put(v.m.flash, Address(FlashStart(v.dir), b), data), Blank(|v.m.buffer|)) else v.m;
      var e := if InEeprom(g, v, b) then Put(v.eeprom, Address(EepromStart(v.dir), b), data) else v.eeprom;
      Volume(m, e, v.dir)
  }

  // ----- the volume is a block store -----

  /** The block holds file data: host writes to it are kept. */
  predicate FileBlock(g: Geometry, v: Volume, b: nat)
    requires |v.dir| == DIR_BYTES
  {
    InFlash(g, v, b) || InEeprom(g, v, b)
  }

  lemma PutSlice(f: seq<byte>, p: nat, x: seq<byte>, q: nat, n: nat)
    requires p + |x| <= |f| && q + n <= |f| && (q + n <= p || p + |x| <= q)
    ensures Put(f, p, x)[q..q + n] == f[q..q + n]
  {
  }

  /** Blocks of one file never overlap, so a write shows in its own block only. */
  lemma FlashSlices(g: Geometry, v: Volume, b: nat, c: nat, data: seq<byte>)
    requires ValidVolume(g, v) && |data| == SECTOR && InFlash(g, v, b) && InFlash(g, v, c)
    ensures StartBlock(FlashStart(v.dir)) <= b && StartBlock(FlashStart(v.dir)) <= c
    ensures var p, q := Address(FlashStart(v.dir), b), Address(FlashStart(v.dir), c);
            && p + SECTOR <= |v.m.flash| && q + SECTOR <= |v.m.flash|
            && Put(v.m.flash, p, data)[q..q + SECTOR] == if b == c then data else v.m.flash[q..q + SECTOR]
  {
    hide Put, InFlash, StartBlock;
    BlockBounds(g, v, b);
    BlockBounds(g, v, c);
    var p, q := Address(FlashStart(v.dir), b), Address(FlashStart(v.dir), c);
    if b == c {
      PutRead(v.m.flash, p, data);
    } else {
      PutSlice(v.m.flash, p, data, q, SECTOR);
    }
  }

  lemma EepromSlices(g: Geometry, v: Volume, b: nat, c: nat, data: seq<byte>)
    requires ValidVolume(g, v) && |data| == SECTOR && InEeprom(g, v, b) && InEeprom(g, v, c)
    ensures StartBlock(EepromStart(v.dir)) <= b && StartBlock(EepromStart(v.dir)) <= c
    ensures var p, q := Address(EepromStart(v.dir), b), Address(EepromStart(v.dir), c);
            && p + SECTOR <= |v.eeprom| && q + SECTOR <= |v.eeprom|
            && Put(v.eeprom, p, data)[q..q + SECTOR] == if b == c then data else v.eeprom[q..q + SECTOR]
  {
    hide Put, InEeprom, StartBlock;
    BlockBounds(g, v, b);
    BlockBounds(g, v, c);
    var p, q := Address(EepromStart(v.dir), b), Address(EepromStart(v.dir), c);
    if b == c {
      PutRead(v.eeprom, p, data);
    } else {
      PutSlice(v.eeprom, p, data, q, SECTOR);
    }
  }

  /** Reading after a write that keeps the directory: the written file block
      returns the new data and every other block what it returned before. */
  lemma ReadAfterWrite(g: Geometry, boot: seq<byte>, v: Volume, b: nat, data: seq<byte>, c: nat)
    requires ValidVolume(g, v) && |boot| == SECTOR && |data| == SECTOR
    requires b == ROOT_BLOCK ==> data[..DIR_BYTES] == v.dir
    ensures ReadBlock(g, boot, WriteBlock(g, v, b, data), c)
            == if c == b && FileBlock(g, v, b) then data else ReadBlock(g, boot, v, c)
  {
    hide Put, StartBlock, InFile, FatBlock, Blank, FileSectors, ValidVolume, Address;
    assert |v.dir| == DIR_BYTES by { VolumeDir(g, v); }
    if b > ROOT_BLOCK {
      if InEeprom(g, v, c) {
        if InEeprom(g, v, b) {
          EepromSlices(g, v, b, c, data);
        }
      } else if InFlash(g, v, c) && InFlash(g, v, b) {
        FlashSlices(g, v, b, c, data);
      }
    }
  }

  lemma VolumeDir(g: Geometry, v: Volume)
    requires ValidVolume(g, v)
    ensures |v.dir| == DIR_BYTES
  {
  }

  // ----- reading a file through the FAT -----

  /** Blocks b, b+1, ..., b+n-1, concatenated. */
  function ReadBlocks(g: Geometry, boot: seq<byte>, v: Volume, b: nat, n: nat): (data: seq<byte>)
    requires ValidVolume(g, v) && |boot| == SECTOR
    ensures |data| == SECTOR * n
    decreases n
  {
    if n == 0 then [] else ReadBlocks(g, boot, v, b, n - 1) + ReadBlock(g, boot, v, b + n - 1)
  }

  /** What a FAT driver reads: the blocks of each cluster of a chain in turn. */
  function ReadClusters(g: Geometry, boot: seq<byte>, v: Volume, cs: seq<nat>): (data: seq<byte>)
    requires ValidVolume(g, v) && |boot| == SECTOR
    decreases |cs|
  {
    if |cs| == 0 then []
    else ReadClusters(g, boot, v, cs[..|cs| - 1])
         + ReadBlocks(g, boot, v, StartBlock(cs[|cs| - 1]), SECTORS_PER_CLUSTER)
  }

  /** The driver's view of a file: chain from the FAT block, data from its
      clusters, cut at the size in the directory entry. */
  function ReadFile(g: Geometry, boot: seq<byte>, v: Volume, start: nat, size: nat, fuel: nat): (data: seq<byte>)
    requires ValidVolume(g, v) && |boot| == SECTOR
  {
    var all := ReadClusters(g, boot, v, Follow(ReadBlock(g, boot, v, 1), start, fuel));
    if size <= |all| then all[..size] else all
  }

  lemma {:induction false} ReadBlocksAppend(g: Geometry, boot: seq<byte>, v: Volume, b: nat, n: nat, k: nat)
    requires ValidVolume(g, v) && |boot| == SECTOR
    ensures ReadBlocks(g, boot, v, b, n + k) == ReadBlocks(g, boot, v, b, n) + ReadBlocks(g, boot, v, b + n, k)
    decreases k
  {
    hide ReadBlock, ValidVolume;
    if k == 0 {
      assert ReadBlocks(g, boot, v, b, n) + [] == ReadBlocks(g, boot, v, b, n);
    } else {
      ReadBlocksAppend(g, boot, v, b, n, k - 1);
      assert b + (n + k) - 1 == b + n + k - 1;
    }
  }

  /** A linear chain of clusters is a run of consecutive blocks. */
  lemma {:induction false} LinearClusters(g: Geometry, boot: seq<byte>, v: Volume, start: nat, n: nat)
    requires ValidVolume(g, v) && |boot| == SECTOR && 2 <= start && start + n <= LAST_INDEX + 1
    ensures ReadClusters(g, boot, v, Clusters(start, n)) == ReadBlocks(g, boot, v, StartBlock(start), SECTORS_PER_CLUSTER * n)
    decreases n
  {
    hide ReadBlock, ValidVolume, ReadBlocks;
    if n == 0 {
      NoBlocks(g, boot, v, StartBlock(start));
    } else {
      var cs := Clusters(start, n);
      assert cs[..n - 1] == Clusters(start, n - 1);
      LinearClusters(g, boot, v, start, n - 1);
      assert StartBlock(start + n - 1) == StartBlock(start) + SECTORS_PER_CLUSTER * (n - 1);
      ReadBlocksAppend(g, boot, v, StartBlock(start), SECTORS_PER_CLUSTER * (n - 1), SECTORS_PER_CLUSTER);
    }
  }

  lemma NoBlocks(g: Geometry, boot: seq<byte>, v: Volume, b: nat)
    requires ValidVolume(g, v) && |boot| == SECTOR
    ensures ReadBlocks(g, boot, v, b, 0) == []
  {
  }

  /** The two chains the current directory describes are placed and intact. */
  predicate WellPlaced(g: Geometry, v: Volume)
    requires |v.dir| == DIR_BYTES
  {
    var fs, fl, es, el := FlashStart(v.dir), FileClusters(g.flashBytes), EepromStart(v.dir), FileClusters(g.eepromBytes);
    Placed(fs, fl, es, el) && !Clobbers(fs, fl, es, el)
  }

  /** Which blocks belong to which file, once the chains are placed. */
  lemma PlacedBlocks(g: Geometry, v: Volume, k: nat)
    requires ValidVolume(g, v) && WellPlaced(g, v)
    ensures k < FileSectors(g.flashBytes) ==>
              var b := StartBlock(FlashStart(v.dir)) + k;
              InFlash(g, v, b) && !InEeprom(g, v, b)
    ensures k < FileSectors(g.eepromBytes) ==> InEeprom(g, v, StartBlock(EepromStart(v.dir)) + k)
  {
    hide FileSectors, FileClusters, InFile, StartBlock, FlashStart, EepromStart;
    SectorsFitClusters(g.flashBytes);
    SectorsFitClusters(g.eepromBytes);
    var fs, es := FlashStart(v.dir), EepromStart(v.dir);
    InFileLinear(fs, g.flashBytes, 4 * fs - 4 + k);
    InFileLinear(es, g.eepromBytes, 4 * fs - 4 + k);
    InFileLinear(es, g.eepromBytes, 4 * es - 4 + k);
  }

  /** Below the 16-bit wrap a file is a plain range of blocks. */
  lemma InFileLinear(cluster: nat, size: nat, b: nat)
    requires 2 <= cluster && 0 < FileSectors(size) && 4 * cluster + FileSectors(size) <= 65536
    ensures StartBlock(cluster) == 4 * cluster - 4
    ensures InFile(cluster, size, b) <==> 4 * cluster - 4 <= b < 4 * cluster - 4 + FileSectors(size)
  {
    hide FileSectors;
  }

  lemma {:induction false} FlashBlocks(g: Geometry, boot: seq<byte>, v: Volume, n: nat)
    requires ValidVolume(g, v) && |boot| == SECTOR && WellPlaced(g, v) && n <= FileSectors(g.flashBytes)
    ensures SECTOR * n <= |v.m.flash|
    ensures ReadBlocks(g, boot, v, StartBlock(FlashStart(v.dir)), n) == v.m.flash[..SECTOR * n]
    decreases n
  {
    hide FileSectors, WellPlaced, InFile, StartBlock, FatBlock;
    if n > 0 {
      var b := StartBlock(FlashStart(v.dir)) + n - 1;
      FlashBlocks(g, boot, v, n - 1);
      PlacedBlocks(g, v, n - 1);
      assert Address(FlashStart(v.dir), b) == SECTOR * (n - 1);
    }
  }

  lemma {:induction false} EepromBlocks(g: Geometry, boot: seq<byte>, v: Volume, n: nat)
    requires ValidVolume(g, v) && |boot| == SECTOR && WellPlaced(g, v) && n <= FileSectors(g.eepromBytes)
    ensures SECTOR * n <= |v.eeprom|
    ensures ReadBlocks(g, boot, v, StartBlock(EepromStart(v.dir)), n) == v.eeprom[..SECTOR * n]
    decreases n
  {
    hide FileSectors, WellPlaced, InFile, StartBlock, FatBlock;
    if n > 0 {
      var b := StartBlock(EepromStart(v.dir)) + n - 1;
      EepromBlocks(g, boot, v, n - 1);
      PlacedBlocks(g, v, n - 1);
      assert Address(EepromStart(v.dir), b) == SECTOR * (n - 1);
    }
  }

  lemma FatBlockIsTable(g: Geometry, boot: seq<byte>, v: Volume)
    requires ValidVolume(g, v) && |boot| == SECTOR && WellPlaced(g, v)
    ensures ReadBlock(g, boot, v, 1)
            == FatTable(FlashStart(v.dir), FileClusters(g.flashBytes), EepromStart(v.dir), FileClusters(g.eepromBytes))
  {
    hide FatTable, FileClusters;
  }

  lemma FileFromBlocks(g: Geometry, boot: seq<byte>, v: Volume, start: nat, size: nat, n: nat, sectors: nat, store: seq<byte>)
    requires ValidVolume(g, v) && |boot| == SECTOR && 2 <= start && start + n <= LAST_INDEX + 1
    requires size <= SECTOR * sectors <= |store| && sectors <= SECTORS_PER_CLUSTER * n
    requires ReadBlocks(g, boot, v, StartBlock(start), sectors) == store[..SECTOR * sectors]
    ensures var all := ReadClusters(g, boot, v, Clusters(start, n));
            size <= |all| && all[..size] == store[..size]
  {
    hide ValidVolume, ReadBlocks, StartBlock, ReadClusters;
    var b, rest := StartBlock(start), SECTORS_PER_CLUSTER * n - sectors;
    LinearClusters(g, boot, v, start, n);
    ReadBlocksAppend(g, boot, v, b, sectors, rest);
    assert store[..SECTOR * sectors][..size] == store[..size];
  }

  /** A FAT12 driver that follows the FAT block and reads the clusters it finds
      recovers exactly the bytes of the two files, wherever the
      directory currently places the two files. */
  lemma DriverReadsFiles(g: Geometry, boot: seq<byte>, v: Volume, fuel: nat)
    requires ValidVolume(g, v) && |boot| == SECTOR && WellPlaced(g, v) && fuel >= LAST_INDEX
    ensures g.flashBytes <= |v.m.flash| && g.eepromBytes <= |v.eeprom|
    ensures ReadFile(g, boot, v, FlashStart(v.dir), g.flashBytes, fuel) == v.m.flash[..g.flashBytes]
    ensures ReadFile(g, boot, v, EepromStart(v.dir), g.eepromBytes, fuel) == v.eeprom[..g.eepromBytes]
  {
    hide FatTable, FileClusters, FileSectors, ReadBlocks, ReadBlock, ReadClusters, Follow, StartBlock;
    var fs, fl, es, el := FlashStart(v.dir), FileClusters(g.flashBytes), EepromStart(v.dir), FileClusters(g.eepromBytes);
    FatBlockIsTable(g, boot, v);
    ReaderFindsChains(fs, fl, es, el, fuel);
    SectorsFitClusters(g.flashBytes);
    SectorsFitClusters(g.eepromBytes);
    FlashBlocks(g, boot, v, FileSectors(g.flashBytes));
    EepromBlocks(g, boot, v, FileSectors(g.eepromBytes));
    FileFromBlocks(g, boot, v, fs, g.flashBytes, fl, FileSectors(g.flashBytes), v.m.flash);
    FileFromBlocks(g, boot, v, es, g.eepromBytes, el, FileSectors(g.eepromBytes), v.eeprom);
  }

  /** EEPROM.BIN is one byte short of an EEPROM of whole sectors, because its size
      is the last EEPROM address: no driver sees the last byte in the file, although
      the last block of the file reads and writes it. */
  lemma LastEepromByte(g: Geometry, boot: seq<byte>, v: Volume, fuel: nat, b: byte, data: seq<byte>)
    requires ValidVolume(g, v) && |boot| == SECTOR && WellPlaced(g, v) && fuel >= LAST_INDEX && |data| == SECTOR
    requires |v.eeprom| == g.eepromBytes + 1 && |v.eeprom| % SECTOR == 0
    ensures var last, block := g.eepromBytes, StartBlock(EepromStart(v.dir)) + FileSectors(g.eepromBytes) - 1;
            && ReadFile(g, boot, v, EepromStart(v.dir), g.eepromBytes, fuel)
               == ReadFile(g, boot, v.(eeprom := v.eeprom[last := b]), EepromStart(v.dir), g.eepromBytes, fuel)
            && ReadBlock(g, boot, v, block)[SECTOR - 1] == v.eeprom[last]
            && WriteBlock(g, v, block, data).eeprom[last] == data[SECTOR - 1]
  {
    hide ReadFile, Put, InFile, StartBlock, FileSectors, FatBlock, EepromStart;
    var last, n, block := g.eepromBytes, FileSectors(g.eepromBytes), StartBlock(EepromStart(v.dir)) + FileSectors(g.eepromBytes) - 1;
    var v' := v.(eeprom := v.eeprom[last := b]);
    DriverReadsFiles(g, boot, v, fuel);
    DriverReadsFiles(g, boot, v', fuel);
    assert v'.eeprom[..last] == v.eeprom[..last];
    LastSector(last);
    PlacedBlocks(g, v, n - 1);
    var a := Address(EepromStart(v.dir), block);
    assert a + SECTOR == |v.eeprom|;
    PutRead(v.eeprom, a, data);
    assert Put(v.eeprom, a, data)[a..a + SECTOR][SECTOR - 1] == Put(v.eeprom, a, data)[last];
  }

  lemma LastSector(last: nat)
    requires (last + 1) % SECTOR == 0
    ensures SECTOR * FileSectors(last) == last + 1
  {
  }
}
