/** READ(10) and WRITE(10) over the virtual volume: every run of commands that
    keeps the directory behaves as a plain array of blocks. */
module Scsi {
  import opened Spm
  import opened VirtualFat

  /** 16-bit block addresses, as the source computes them. */
  const BLOCKS: nat := 65536

  datatype Command = Read10(block: nat, count: nat) | Write10(block: nat, data: seq<seq<byte>>)

  datatype Reply = Rejected | Written | Data(blocks: seq<seq<byte>>)

  // ----- the device -----

  function ReadRange(g: Geometry, boot: seq<byte>, v: Volume, block: nat, count: nat): (r: seq<seq<byte>>)
    requires ValidVolume(g, v) && |boot| == SECTOR
    ensures |r| == count
    decreases count
  {
    if count == 0 then []
    else ReadRange(g, boot, v, block, count - 1) + [ReadBlock(g, boot, v, (block + count - 1) % BLOCKS)]
  }

  predicate Sectors(data: seq<seq<byte>>) {
    forall d | d in data :: |d| == SECTOR
  }

  function WriteRange(g: Geometry, v: Volume, block: nat, data: seq<seq<byte>>): (r: Volume)
    requires ValidVolume(g, v) && Sectors(data)
    ensures ValidVolume(g, r) && (BufferEmpty(v.m) ==> BufferEmpty(r.m))
    decreases |data|
  {
    if |data| == 0 then v
    else
      var n := |data| - 1;
      WriteBlock(g, WriteRange(g, v, block, data[..n]), (block + n) % BLOCKS, data[n])
  }

  predicate ValidCommand(cmd: Command) {
    cmd.block < BLOCKS && (cmd.Write10? ==> Sectors(cmd.data))
  }

  /** SCSI_Command_ReadWrite_10. */
  function Perform(g: Geometry, boot: seq<byte>, v: Volume, cmd: Command): (r: (Volume, Reply))
    requires ValidVolume(g, v) && |boot| == SECTOR && ValidCommand(cmd)
    ensures ValidVolume(g, r.0) && (BufferEmpty(v.m) ==> BufferEmpty(r.0.m))
  {
    if cmd.block >= MediaBlocks(g) then (v, Rejected)
    else match cmd
      case Read10(block, count) => (v, Data(ReadRange(g, boot, v, block, count)))
      case Write10(block, data) => (WriteRange(g, v, block, data), Written)
  }

  function PerformAll(g: Geometry, boot: seq<byte>, v: Volume, cmds: seq<Command>): (r: (Volume, seq<Reply>))
    requires ValidVolume(g, v) && |boot| == SECTOR && forall c | c in cmds :: ValidCommand(c)
    ensures ValidVolume(g, r.0)
    decreases |cmds|
  {
    if |cmds| == 0 then (v, [])
    else
      var first := Perform(g, boot, v, cmds[0]);
      var rest := PerformAll(g, boot, first.0, cmds[1..]);
      (rest.0, [first.1] + rest.1)
  }

  // ----- the block array it refines -----

  /** An array of blocks of which only `files` accept writes. */
  datatype Store = Store(blocks: seq<seq<byte>>, files: set<nat>, media: nat)

  predicate ValidStore(s: Store) {
    |s.blocks| == BLOCKS
  }

  function Put1(s: Store, b: nat, d: seq<byte>): (r: Store)
    requires ValidStore(s) && b < BLOCKS
    ensures ValidStore(r) && r.files == s.files && r.media == s.media
  {
    if b in s.files then s.(blocks := s.blocks[b := d]) else s
  }

  function PutRange(s: Store, block: nat, data: seq<seq<byte>>): (r: Store)
    requires ValidStore(s)
    ensures ValidStore(r) && r.files == s.files && r.media == s.media
    decreases |data|
  {
    if |data| == 0 then s
    else
      var n := |data| - 1;
      Put1(PutRange(s, block, data[..n]), (block + n) % BLOCKS, data[n])
  }

  function StorePerform(s: Store, cmd: Command): (r: (Store, Reply))
    requires ValidStore(s)
    ensures ValidStore(r.0) && r.0.files == s.files && r.0.media == s.media
  {
    if cmd.block >= s.media then (s, Rejected)
    else match cmd
      case Read10(block, count) =>
        (s, Data(seq(count, i requires 0 <= i < count => s.blocks[(block + i) % BLOCKS])))
      case Write10(block, data) => (PutRange(s, block, data), Written)
  }

  function StoreReplies(s: Store, cmds: seq<Command>): (r: seq<Reply>)
    requires ValidStore(s)
    decreases |cmds|
  {
    if |cmds| == 0 then []
    else
      var first := StorePerform(s, cmds[0]);
      [first.1] + StoreReplies(first.0, cmds[1..])
  }

  // ----- refinement -----

  /** The store shows what the volume reads as, with the file blocks writable. */
  predicate Refines(g: Geometry, boot: seq<byte>, v: Volume, s: Store)
    requires ValidVolume(g, v) && |boot| == SECTOR
  {
    && ValidStore(s) && s.media == MediaBlocks(g)
    && (forall b | 0 <= b < BLOCKS :: s.blocks[b] == ReadBlock(g, boot, v, b))
    && (forall b | 0 <= b < BLOCKS :: b in s.files <==> FileBlock(g, v, b))
  }

  /** The store a volume starts as. */
  function Initial(g: Geometry, boot: seq<byte>, v: Volume): (s: Store)
    requires ValidVolume(g, v) && |boot| == SECTOR
    ensures ValidStore(s) && Refines(g, boot, v, s)
  {
    Store(seq(BLOCKS, b requires 0 <= b < BLOCKS => ReadBlock(g, boot, v, b)),
          (set b: nat | b < BLOCKS && FileBlock(g, v, b)), MediaBlocks(g))
  }

  /** Writes to the root block leave the directory entries as they are. */
  predicate KeepsDir(dir: seq<byte>, block: nat, data: seq<seq<byte>>) {
    && |dir| == DIR_BYTES && Sectors(data)
    && forall i | 0 <= i < |data| :: (block + i) % BLOCKS == ROOT_BLOCK ==> data[i][..DIR_BYTES] == dir
  }

  lemma WriteOneRefines(g: Geometry, boot: seq<byte>, v: Volume, s: Store, b: nat, data: seq<byte>)
    requires ValidVolume(g, v) && |boot| == SECTOR && ValidStore(s) && Refines(g, boot, v, s) && b < BLOCKS && |data| == SECTOR
    requires b == ROOT_BLOCK ==> data[..DIR_BYTES] == v.dir
    ensures Refines(g, boot, WriteBlock(g, v, b, data), Put1(s, b, data))
    ensures WriteBlock(g, v, b, data).dir == v.dir
  {
    hide ReadBlock, InFile, FileSectors, ValidVolume, Put;
    var v', s' := WriteBlock(g, v, b, data), Put1(s, b, data);
    forall c | 0 <= c < BLOCKS
      ensures s'.blocks[c] == ReadBlock(g, boot, v', c)
    {
      ReadAfterWrite(g, boot, v, b, data, c);
    }
  }

  lemma {:induction false} WriteRangeRefines(g: Geometry, boot: seq<byte>, v: Volume, s: Store, block: nat, data: seq<seq<byte>>)
    requires ValidVolume(g, v) && |boot| == SECTOR && ValidStore(s) && Refines(g, boot, v, s) && KeepsDir(v.dir, block, data)
    ensures Refines(g, boot, WriteRange(g, v, block, data), PutRange(s, block, data))
    ensures WriteRange(g, v, block, data).dir == v.dir
    decreases |data|
  {
    hide WriteBlock, Refines, ValidVolume, Put1;
    if |data| > 0 {
      var n := |data| - 1;
      assert forall i | 0 <= i < n :: data[..n][i] == data[i];
      WriteRangeRefines(g, boot, v, s, block, data[..n]);
      WriteOneRefines(g, boot, WriteRange(g, v, block, data[..n]), PutRange(s, block, data[..n]), (block + n) % BLOCKS, data[n]);
    }
  }

  lemma {:induction false} ReadRangeRefines(g: Geometry, boot: seq<byte>, v: Volume, s: Store, block: nat, count: nat)
    requires ValidVolume(g, v) && |boot| == SECTOR && ValidStore(s) && Refines(g, boot, v, s)
    ensures ReadRange(g, boot, v, block, count)
            == seq(count, i requires 0 <= i < count => s.blocks[(block + i) % BLOCKS])
    decreases count
  {
    hide ReadBlock, ValidVolume, FileBlock;
    if count > 0 {
      ReadRangeRefines(g, boot, v, s, block, count - 1);
      assert s.blocks[(block + count - 1) % BLOCKS] == ReadBlock(g, boot, v, (block + count - 1) % BLOCKS);
    }
  }

  predicate KeepsDirectory(dir: seq<byte>, cmd: Command) {
    ValidCommand(cmd) && |dir| == DIR_BYTES && (cmd.Write10? ==> KeepsDir(dir, cmd.block, cmd.data))
  }

  lemma PerformRefines(g: Geometry, boot: seq<byte>, v: Volume, s: Store, cmd: Command)
    requires ValidVolume(g, v) && |boot| == SECTOR && ValidStore(s) && Refines(g, boot, v, s) && KeepsDirectory(v.dir, cmd)
    ensures var d, a := Perform(g, boot, v, cmd), StorePerform(s, cmd);
            Refines(g, boot, d.0, a.0) && d.1 == a.1 && d.0.dir == v.dir
  {
    hide ReadBlock, ValidVolume, FileBlock, WriteRange, PutRange, ReadRange, KeepsDir;
    match cmd
    case Read10(block, count) => ReadRangeRefines(g, boot, v, s, block, count);
    case Write10(block, data) => WriteRangeRefines(g, boot, v, s, block, data);
  }

  /** Every run of READ(10) and WRITE(10) commands that keeps the directory gets
      exactly the replies of the block array, whatever the order and repeats:
      file blocks return the data last written, boot, FAT and unmapped blocks
      never change. */
  lemma {:induction false} RunRefines(g: Geometry, boot: seq<byte>, v: Volume, s: Store, cmds: seq<Command>)
    requires ValidVolume(g, v) && |boot| == SECTOR && ValidStore(s) && Refines(g, boot, v, s)
    requires forall c | c in cmds :: ValidCommand(c) && KeepsDirectory(v.dir, c)
    ensures PerformAll(g, boot, v, cmds).1 == StoreReplies(s, cmds)
    ensures PerformAll(g, boot, v, cmds).0.dir == v.dir
    ensures BufferEmpty(v.m) ==> BufferEmpty(PerformAll(g, boot, v, cmds).0.m)
    decreases |cmds|
  {
    hide ValidVolume, Refines, Perform, StorePerform, BufferEmpty;
    if |cmds| > 0 {
      PerformRefines(g, boot, v, s, cmds[0]);
      RunRefines(g, boot, Perform(g, boot, v, cmds[0]).0, StorePerform(s, cmds[0]).0, cmds[1..]);
    }
  }

  /** In particular a volume answers every such run as the array of what its
      blocks read as at the start. */
  lemma RunFromStart(g: Geometry, boot: seq<byte>, v: Volume, cmds: seq<Command>)
    requires ValidVolume(g, v) && |boot| == SECTOR
    requires forall c | c in cmds :: ValidCommand(c) && KeepsDirectory(v.dir, c)
    ensures PerformAll(g, boot, v, cmds).1 == StoreReplies(Initial(g, boot, v), cmds)
  {
    hide Initial, PerformAll, StoreReplies, Refines, KeepsDirectory, ValidVolume;
    RunRefines(g, boot, v, Initial(g, boot, v), cmds);
  }

  /** Unmapped blocks of the store read as zeros. */
  lemma UnmappedZero(g: Geometry, boot: seq<byte>, v: Volume, b: nat)
    requires ValidVolume(g, v) && |boot| == SECTOR && ROOT_BLOCK < b && !FileBlock(g, v, b)
    ensures ReadBlock(g, boot, v, b) == Zeros(SECTOR)
  {
  }
}
