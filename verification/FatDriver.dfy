/** A FAT12 driver that knows nothing of the bootloader: it reads the root directory
    block, decodes the entries there, follows the table and reads the clusters. */
module FatDriver {
  import opened Spm
  import opened Fat12
  import opened VirtualFat

  // ----- what is on the disk -----

  /** Little-endian numbers in a block. */
  function Word16(block: seq<byte>, at: nat): (n: nat)
    requires at + 2 <= |block|
  {
    block[at] as nat + 256 * block[at + 1] as nat
  }

  function Word32(block: seq<byte>, at: nat): (n: nat)
    requires at + 4 <= |block|
  {
    Word16(block, at) + 65536 * Word16(block, at + 2)
  }

  /** Starting cluster and size of directory entry n: bytes 26 and 27, and bytes 28
      to 31, of its 32. */
  function EntryCluster(root: seq<byte>, n: nat): (c: nat)
    requires 32 * n + 32 <= |root|
  {
    Word16(root, 32 * n + 26)
  }

  function EntrySize(root: seq<byte>, n: nat): (size: nat)
    requires 32 * n + 32 <= |root|
  {
    Word32(root, 32 * n + 28)
  }

  /** Cluster c: four blocks, the first cluster being number 2 at block 4. */
  function ClusterData(g: Geometry, boot: seq<byte>, v: Volume, c: nat): (data: seq<byte>)
    requires ValidVolume(g, v) && |boot| == SECTOR && c >= 2
  {
    var b := 4 + 4 * (c - 2);
    ReadBlock(g, boot, v, b) + ReadBlock(g, boot, v, b + 1) + ReadBlock(g, boot, v, b + 2) + ReadBlock(g, boot, v, b + 3)
  }

  function ChainData(g: Geometry, boot: seq<byte>, v: Volume, cs: seq<nat>): (data: seq<byte>)
    requires ValidVolume(g, v) && |boot| == SECTOR
    decreases |cs|
  {
    if |cs| == 0 then []
    else
      var last := cs[|cs| - 1];
      ChainData(g, boot, v, cs[..|cs| - 1]) + if last >= 2 then ClusterData(g, boot, v, last) else []
  }

  /** The file of directory entry n, all from the blocks of the disk. */
  function OpenFile(g: Geometry, boot: seq<byte>, v: Volume, n: nat, fuel: nat): (data: seq<byte>)
    requires ValidVolume(g, v) && |boot| == SECTOR && n < 16
  {
    var root := ReadBlock(g, boot, v, 3);
    var all := ChainData(g, boot, v, Follow(ReadBlock(g, boot, v, 1), EntryCluster(root, n), fuel));
    if EntrySize(root, n) <= |all| then all[..EntrySize(root, n)] else all
  }

  lemma ClusterAgrees(g: Geometry, boot: seq<byte>, v: Volume, c: nat)
    requires ValidVolume(g, v) && |boot| == SECTOR && 2 <= c <= LAST_INDEX
    ensures ReadBlocks(g, boot, v, StartBlock(c), SECTORS_PER_CLUSTER) == ClusterData(g, boot, v, c)
  {
    hide ReadBlock, ReadBlocks, ValidVolume, StartBlock;
    ClusterStart(c);
    FourBlocks(g, boot, v, 4 + 4 * (c - 2));
  }

  lemma ClusterStart(c: nat)
    requires 2 <= c <= LAST_INDEX
    ensures StartBlock(c) == 4 + 4 * (c - 2)
  {
  }

  lemma FourBlocks(g: Geometry, boot: seq<byte>, v: Volume, b: nat)
    requires ValidVolume(g, v) && |boot| == SECTOR
    ensures ReadBlocks(g, boot, v, b, 4)
            == ReadBlock(g, boot, v, b) + ReadBlock(g, boot, v, b + 1) + ReadBlock(g, boot, v, b + 2) + ReadBlock(g, boot, v, b + 3)
  {
    hide ReadBlock, ReadBlocks, ValidVolume;
    NextBlock(g, boot, v, b, 0);
    NextBlock(g, boot, v, b, 1);
    NextBlock(g, boot, v, b, 2);
    NextBlock(g, boot, v, b, 3);
    NoBlocks(g, boot, v, b);
    assert [] + ReadBlock(g, boot, v, b) == ReadBlock(g, boot, v, b);
  }

  lemma NextBlock(g: Geometry, boot: seq<byte>, v: Volume, b: nat, n: nat)
    requires ValidVolume(g, v) && |boot| == SECTOR
    ensures ReadBlocks(g, boot, v, b, n + 1) == ReadBlocks(g, boot, v, b, n) + ReadBlock(g, boot, v, b + n)
  {
    hide ReadBlock, ValidVolume;
  }

  lemma {:induction false} ChainAgrees(g: Geometry, boot: seq<byte>, v: Volume, start: nat, n: nat)
    requires ValidVolume(g, v) && |boot| == SECTOR && 2 <= start && start + n <= LAST_INDEX + 1
    ensures ReadClusters(g, boot, v, Clusters(start, n)) == ChainData(g, boot, v, Clusters(start, n))
    decreases n
  {
    hide ReadBlocks, ClusterData, ValidVolume, StartBlock;
    var cs := Clusters(start, n);
    if n > 0 {
      assert cs[..n - 1] == Clusters(start, n - 1);
      ChainAgrees(g, boot, v, start, n - 1);
      ClusterAgrees(g, boot, v, cs[n - 1]);
    }
  }

  /** Entries 2 and 4 of the directory are FLASH.BIN and EEPROM.BIN, with the sizes of
      the device. */
  predicate NamesFiles(g: Geometry, dir: seq<byte>)
    requires |dir| == DIR_BYTES
  {
    EntrySize(dir, 2) == g.flashBytes && EntrySize(dir, 4) == g.eepromBytes
  }

  /** The chains that directory describes are apart and intact. */
  predicate ChainsPlaced(g: Geometry, dir: seq<byte>)
    requires |dir| == DIR_BYTES
  {
    var fs, es := EntryCluster(dir, 2), EntryCluster(dir, 4);
    var fl, el := FileClusters(g.flashBytes), FileClusters(g.eepromBytes);
    Placed(fs, fl, es, el) && !Clobbers(fs, fl, es, el)
  }

  /** The bootloader and the driver take the starts from the same bytes. */
  lemma StartsAgree(dir: seq<byte>)
    requires |dir| == DIR_BYTES
    ensures FlashStart(dir) == EntryCluster(dir, 2) && EepromStart(dir) == EntryCluster(dir, 4)
  {
    assert 32 * 2 + 26 == 90 && 32 * 4 + 26 == 154;
  }

  lemma RootShowsDirectory(g: Geometry, boot: seq<byte>, v: Volume, n: nat)
    requires ValidVolume(g, v) && |boot| == SECTOR && n < 5
    ensures var root := ReadBlock(g, boot, v, 3);
            EntryCluster(root, n) == EntryCluster(v.dir, n) && EntrySize(root, n) == EntrySize(v.dir, n)
  {
    var root := ReadBlock(g, boot, v, 3);
    forall i | 0 <= i < DIR_BYTES ensures root[i] == v.dir[i] {}
  }

  /** Such a driver recovers exactly the bytes of the two files, wherever the
      directory places them. */
  lemma DriverOpensFiles(g: Geometry, boot: seq<byte>, v: Volume, fuel: nat)
    requires ValidVolume(g, v) && |boot| == SECTOR && fuel >= LAST_INDEX
    requires NamesFiles(g, v.dir) && ChainsPlaced(g, v.dir)
    ensures g.flashBytes <= |v.m.flash| && g.eepromBytes <= |v.eeprom|
    ensures OpenFile(g, boot, v, 2, fuel) == v.m.flash[..g.flashBytes]
    ensures OpenFile(g, boot, v, 4, fuel) == v.eeprom[..g.eepromBytes]
  {
    hide ReadBlock, FlashStart, EepromStart, EntryCluster, EntrySize, FileClusters, FatTable, Follow, ReadClusters;
    hide ChainData, Clusters;
    StartsAgree(v.dir);
    RootShowsDirectory(g, boot, v, 2);
    RootShowsDirectory(g, boot, v, 4);
    DriverReadsFiles(g, boot, v, fuel);
    FatBlockIsTable(g, boot, v);
    var fs, es := EntryCluster(v.dir, 2), EntryCluster(v.dir, 4);
    var fl, el := FileClusters(g.flashBytes), FileClusters(g.eepromBytes);
    ReaderFindsChains(fs, fl, es, el, fuel);
    ChainAgrees(g, boot, v, fs, fl);
    ChainAgrees(g, boot, v, es, el);
  }

  /** The shipped directory, FLASH.BIN from cluster 2 and EEPROM.BIN right behind it,
      is such a directory while all indices fit the 8-bit table offset. */
  lemma ShippedPlaced(g: Geometry, dir: seq<byte>)
    requires |dir| == DIR_BYTES && 0 < g.flashBytes && 0 < g.eepromBytes
    requires dir[90] == 2 && dir[91] == 0
    requires dir[154] as nat + 256 * dir[155] as nat == 2 + FileClusters(g.flashBytes)
    requires FileClusters(g.flashBytes) + FileClusters(g.eepromBytes) <= LAST_INDEX - 1
    ensures ChainsPlaced(g, dir)
  {
    hide FileClusters;
    assert 32 * 2 + 26 == 90 && 32 * 4 + 26 == 154;
    DefaultPlaced(g);
  }

  /** Under it the host finds FLASH.BIN from block 4 on. */
  lemma ShippedBlocks(g: Geometry, boot: seq<byte>, v: Volume, k: nat)
    requires ValidVolume(g, v) && |boot| == SECTOR && k < FileSectors(g.flashBytes)
    requires v.dir[90] == 2 && v.dir[91] == 0
    requires v.dir[154] as nat + 256 * v.dir[155] as nat == 2 + FileClusters(g.flashBytes)
    requires FileClusters(g.flashBytes) + FileClusters(g.eepromBytes) <= LAST_INDEX - 1
    ensures 512 * k + 512 <= |v.m.flash|
    ensures ReadBlock(g, boot, v, 4 + k) == v.m.flash[512 * k..512 * k + 512]
  {
    hide FileSectors, FileClusters, FatBlock, InFile, FlashStart, EepromStart;
    Populated(g, v);
    ShippedPlaced(g, v.dir);
    StartsAgree(v.dir);
    assert 32 * 2 + 26 == 90;
    PlacedBlocks(g, v, k);
    BlockBounds(g, v, 4 + k);
  }

  lemma Populated(g: Geometry, v: Volume)
    requires ValidVolume(g, v)
    ensures 0 < g.flashBytes && 0 < g.eepromBytes
  {
  }

  // ----- a run with a driver -----

  /** Files moved by the host keep their contents: whatever a directory write says,
      the driver opens the same two files at their new place. */
  lemma MovedFilesOpen(g: Geometry, boot: seq<byte>, v: Volume, root: seq<byte>, fuel: nat)
    requires ValidVolume(g, v) && |boot| == SECTOR && |root| == SECTOR && fuel >= LAST_INDEX
    requires NamesFiles(g, v.dir) && ChainsPlaced(g, v.dir)
    requires NamesFiles(g, root[..DIR_BYTES]) && ChainsPlaced(g, root[..DIR_BYTES])
    ensures var w := WriteBlock(g, v, 3, root);
            OpenFile(g, boot, w, 2, fuel) == OpenFile(g, boot, v, 2, fuel) && OpenFile(g, boot, w, 4, fuel) == OpenFile(g, boot, v, 4, fuel)
  {
    hide OpenFile, ChainsPlaced, NamesFiles;
    DriverOpensFiles(g, boot, v, fuel);
    DriverOpensFiles(g, boot, WriteBlock(g, v, 3, root), fuel);
  }
}
