/** Every run of READ(10) and WRITE(10) commands, also one that rewrites the
    directory: the device is two files of sectors, and the directory in force says
    which blocks show them. */
module ScsiFiles {
  import opened Spm
  import Fat12
  import opened VirtualFat
  import opened Scsi

  /** The sectors of FLASH.BIN and EEPROM.BIN, and the directory entries. */
  datatype Files = Files(flash: seq<seq<byte>>, eeprom: seq<seq<byte>>, dir: seq<byte>)

  predicate ValidFiles(g: Geometry, f: Files) {
    && |f.dir| == DIR_BYTES
    && |f.flash| == FileSectors(g.flashBytes) && |f.eeprom| == FileSectors(g.eepromBytes)
    && 0 < |f.flash| <= 65536 && 0 < |f.eeprom| <= 65536
    && (forall k | 0 <= k < |f.flash| :: |f.flash[k]| == SECTOR) && (forall k | 0 <= k < |f.eeprom| :: |f.eeprom[k]| == SECTOR)
  }

  /** The sector of a file that a block shows under a starting cluster. */
  function SectorOf(cluster: nat, size: nat, b: nat): (k: nat)
    requires InFile(cluster, size, b) && 0 < FileSectors(size) <= 65536
    ensures k < FileSectors(size)
  {
    InFileBound(cluster, size, b);
    b - StartBlock(cluster)
  }

  function ShowBlock(g: Geometry, boot: seq<byte>, f: Files, b: nat): (data: seq<byte>)
    requires ValidFiles(g, f) && |boot| == SECTOR
  {
    if b == 0 then boot
    else if b <= 2 then FatBlock(g, f.dir)
    else if b == ROOT_BLOCK then f.dir + Zeros(SECTOR - DIR_BYTES)
    else if InFile(EepromStart(f.dir), g.eepromBytes, b) then f.eeprom[SectorOf(EepromStart(f.dir), g.eepromBytes, b)]
    else if InFile(FlashStart(f.dir), g.flashBytes, b) then f.flash[SectorOf(FlashStart(f.dir), g.flashBytes, b)]
    else Zeros(SECTOR)
  }

  /** A write moves the files, or replaces one sector of those that show the block. */
  function TakeBlock(g: Geometry, f: Files, b: nat, data: seq<byte>): (r: Files)
    requires ValidFiles(g, f) && |data| == SECTOR
    ensures ValidFiles(g, r)
  {
    if b < ROOT_BLOCK then f
    else if b == ROOT_BLOCK then f.(dir := data[..DIR_BYTES])
    else
      var flash := if InFile(FlashStart(f.dir), g.flashBytes, b)
                   then f.flash[SectorOf(FlashStart(f.dir), g.flashBytes, b) := data] else f.flash;
      var eeprom := if InFile(EepromStart(f.dir), g.eepromBytes, b)
                    then f.eeprom[SectorOf(EepromStart(f.dir), g.eepromBytes, b) := data] else f.eeprom;
      Files(flash, eeprom, f.dir)
  }

  /** Sector k of a memory. */
  function SectorAt(mem: seq<byte>, k: nat): (s: seq<byte>)
    requires SECTOR * k + SECTOR <= |mem|
  {
    mem[SECTOR * k..SECTOR * k + SECTOR]
  }

  predicate Sectored(mem: seq<byte>, sectors: seq<seq<byte>>) {
    SECTOR * |sectors| <= |mem| && forall k | 0 <= k < |sectors| :: SectorAt(mem, k) == sectors[k]
  }

  predicate Holds(g: Geometry, v: Volume, f: Files) {
    ValidFiles(g, f) && Sectored(v.m.flash, f.flash) && Sectored(v.eeprom, f.eeprom) && v.dir == f.dir
  }

  /** The files a volume starts with. */
  function FilesOf(g: Geometry, v: Volume): (f: Files)
    requires ValidVolume(g, v)
    ensures Holds(g, v, f)
  {
    Files(seq(FileSectors(g.flashBytes), k requires 0 <= k < FileSectors(g.flashBytes) => SectorAt(v.m.flash, k)),
          seq(FileSectors(g.eepromBytes), k requires 0 <= k < FileSectors(g.eepromBytes) => SectorAt(v.eeprom, k)), v.dir)
  }

  lemma SectoredPut(mem: seq<byte>, sectors: seq<seq<byte>>, k: nat, data: seq<byte>)
    requires Sectored(mem, sectors) && k < |sectors| && |data| == SECTOR
    ensures SECTOR * k + SECTOR <= |mem| && Sectored(Put(mem, SECTOR * k, data), sectors[k := data])
  {
    hide Put;
    var r := Put(mem, SECTOR * k, data);
    forall j | 0 <= j < |sectors| ensures SectorAt(r, j) == sectors[k := data][j] {
      if j == k {
        PutRead(mem, SECTOR * k, data);
      } else {
        PutSlice(mem, SECTOR * k, data, SECTOR * j, SECTOR);
        assert SectorAt(mem, j) == sectors[j];
      }
    }
  }

  lemma ShowsBlock(g: Geometry, boot: seq<byte>, v: Volume, f: Files, b: nat)
    requires ValidVolume(g, v) && |boot| == SECTOR && Holds(g, v, f)
    ensures ReadBlock(g, boot, v, b) == ShowBlock(g, boot, f, b)
  {
    hide InFile, FileSectors, FatBlock, StartBlock, FlashStart, EepromStart;
    BlockBounds(g, v, b);
    if b > ROOT_BLOCK {
      if InFile(EepromStart(f.dir), g.eepromBytes, b) {
        var k := SectorOf(EepromStart(f.dir), g.eepromBytes, b);
        assert SectorAt(v.eeprom, k) == f.eeprom[k];
      } else if InFile(FlashStart(f.dir), g.flashBytes, b) {
        var k := SectorOf(FlashStart(f.dir), g.flashBytes, b);
        assert SectorAt(v.m.flash, k) == f.flash[k];
      }
    }
  }

  lemma TakesBlock(g: Geometry, v: Volume, f: Files, b: nat, data: seq<byte>)
    requires ValidVolume(g, v) && |data| == SECTOR && Holds(g, v, f)
    ensures Holds(g, WriteBlock(g, v, b, data), TakeBlock(g, f, b, data))
  {
    hide InFile, FileSectors, StartBlock, FlashStart, EepromStart, Put, Sectored, ValidVolume;
    BlockBounds(g, v, b);
    if b > ROOT_BLOCK {
      if InFile(EepromStart(f.dir), g.eepromBytes, b) {
        SectoredPut(v.eeprom, f.eeprom, SectorOf(EepromStart(f.dir), g.eepromBytes, b), data);
      }
      if InFile(FlashStart(f.dir), g.flashBytes, b) {
        SectoredPut(v.m.flash, f.flash, SectorOf(FlashStart(f.dir), g.flashBytes, b), data);
      }
    }
  }

  // ----- commands -----

  function ShowRange(g: Geometry, boot: seq<byte>, f: Files, block: nat, count: nat): (r: seq<seq<byte>>)
    requires ValidFiles(g, f) && |boot| == SECTOR
  {
    seq(count, i requires 0 <= i < count => ShowBlock(g, boot, f, (block + i) % BLOCKS))
  }

  function TakeRange(g: Geometry, f: Files, block: nat, data: seq<seq<byte>>): (r: Files)
    requires ValidFiles(g, f) && Sectors(data)
    ensures ValidFiles(g, r)
    decreases |data|
  {
    if |data| == 0 then f
    else
      var n := |data| - 1;
      TakeBlock(g, TakeRange(g, f, block, data[..n]), (block + n) % BLOCKS, data[n])
  }

  function FilesPerform(g: Geometry, boot: seq<byte>, f: Files, cmd: Command): (r: (Files, Reply))
    requires ValidFiles(g, f) && |boot| == SECTOR && ValidCommand(cmd)
    ensures ValidFiles(g, r.0)
  {
    if cmd.block >= MediaBlocks(g) then (f, Rejected)
    else match cmd
      case Read10(block, count) => (f, Data(ShowRange(g, boot, f, block, count)))
      case Write10(block, data) => (TakeRange(g, f, block, data), Written)
  }

  function FilesPerformAll(g: Geometry, boot: seq<byte>, f: Files, cmds: seq<Command>): (r: (Files, seq<Reply>))
    requires ValidFiles(g, f) && |boot| == SECTOR && forall c | c in cmds :: ValidCommand(c)
    ensures ValidFiles(g, r.0)
    decreases |cmds|
  {
    if |cmds| == 0 then (f, [])
    else
      var first := FilesPerform(g, boot, f, cmds[0]);
      var rest := FilesPerformAll(g, boot, first.0, cmds[1..]);
      (rest.0, [first.1] + rest.1)
  }

  lemma {:induction false} ShowsRange(g: Geometry, boot: seq<byte>, v: Volume, f: Files, block: nat, count: nat)
    requires ValidVolume(g, v) && |boot| == SECTOR && Holds(g, v, f)
    ensures ReadRange(g, boot, v, block, count) == ShowRange(g, boot, f, block, count)
    decreases count
  {
    hide ReadBlock, ShowBlock, ValidVolume, Holds, ValidFiles;
    assert ValidFiles(g, f) by { HoldsValid(g, v, f); }
    if count > 0 {
      ShowsRange(g, boot, v, f, block, count - 1);
      ShowsBlock(g, boot, v, f, (block + count - 1) % BLOCKS);
    }
  }

  lemma HoldsValid(g: Geometry, v: Volume, f: Files)
    requires Holds(g, v, f)
    ensures ValidFiles(g, f)
  {
  }

  lemma {:induction false} TakesRange(g: Geometry, v: Volume, f: Files, block: nat, data: seq<seq<byte>>)
    requires ValidVolume(g, v) && Holds(g, v, f) && Sectors(data)
    ensures ValidFiles(g, f) && Holds(g, WriteRange(g, v, block, data), TakeRange(g, f, block, data))
    decreases |data|
  {
    hide WriteBlock, TakeBlock, ValidVolume, Holds, ValidFiles;
    assert ValidFiles(g, f) by { HoldsValid(g, v, f); }
    if |data| > 0 {
      var n := |data| - 1;
      TakesRange(g, v, f, block, data[..n]);
      TakesBlock(g, WriteRange(g, v, block, data[..n]), TakeRange(g, f, block, data[..n]), (block + n) % BLOCKS, data[n]);
    }
  }

  lemma PerformHolds(g: Geometry, boot: seq<byte>, v: Volume, f: Files, cmd: Command)
    requires ValidVolume(g, v) && |boot| == SECTOR && Holds(g, v, f) && ValidCommand(cmd)
    ensures ValidFiles(g, f)
    ensures var d, a := Perform(g, boot, v, cmd), FilesPerform(g, boot, f, cmd);
            Holds(g, d.0, a.0) && d.1 == a.1
  {
    hide ValidVolume, Holds, ValidFiles, WriteRange, TakeRange, ReadRange, ShowRange;
    assert ValidFiles(g, f) by { HoldsValid(g, v, f); }
    match cmd
    case Read10(block, count) => ShowsRange(g, boot, v, f, block, count);
    case Write10(block, data) => TakesRange(g, v, f, block, data);
  }

  /** Every run of commands at all gets the replies of the two files under the
      directory in force, and leaves the memories holding them. */
  lemma {:induction false} RunHolds(g: Geometry, boot: seq<byte>, v: Volume, f: Files, cmds: seq<Command>)
    requires ValidVolume(g, v) && |boot| == SECTOR && Holds(g, v, f) && forall c | c in cmds :: ValidCommand(c)
    ensures ValidFiles(g, f)
    ensures var d, a := PerformAll(g, boot, v, cmds), FilesPerformAll(g, boot, f, cmds);
            Holds(g, d.0, a.0) && d.1 == a.1
    decreases |cmds|
  {
    hide ValidVolume, Holds, ValidFiles, Perform, FilesPerform, ValidCommand;
    assert ValidFiles(g, f) by { HoldsValid(g, v, f); }
    if |cmds| > 0 {
      assert cmds[0] in cmds && forall c | c in cmds[1..] :: c in cmds;
      PerformHolds(g, boot, v, f, cmds[0]);
      RunHolds(g, boot, Perform(g, boot, v, cmds[0]).0, FilesPerform(g, boot, f, cmds[0]).0, cmds[1..]);
    }
  }

  /** Moving the files loses nothing: wherever a new directory places them, a driver
      reads the same files as before. */
  lemma MoveKeepsFiles(g: Geometry, boot: seq<byte>, v: Volume, root: seq<byte>, fuel: nat)
    requires ValidVolume(g, v) && |boot| == SECTOR && |root| == SECTOR && fuel >= Fat12.LAST_INDEX
    requires var w := WriteBlock(g, v, ROOT_BLOCK, root);
             WellPlaced(g, v) && WellPlaced(g, w)
    ensures var w := WriteBlock(g, v, ROOT_BLOCK, root);
            && ReadFile(g, boot, w, FlashStart(w.dir), g.flashBytes, fuel)
               == ReadFile(g, boot, v, FlashStart(v.dir), g.flashBytes, fuel)
            && ReadFile(g, boot, w, EepromStart(w.dir), g.eepromBytes, fuel)
               == ReadFile(g, boot, v, EepromStart(v.dir), g.eepromBytes, fuel)
  {
    hide ReadFile, WellPlaced, FlashStart, EepromStart;
    DriverReadsFiles(g, boot, v, fuel);
    DriverReadsFiles(g, boot, WriteBlock(g, v, ROOT_BLOCK, root), fuel);
  }
}
