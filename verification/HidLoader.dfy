/** The HID bootloader protocol: the host program that sends an image page by
    page, and the device that programs each page it receives. */
module HidLoader {
  import opened Spm
  import opened IntelHex
  import opened Device
  import opened HexImage
  import opened TextFile

  const START_APPLICATION: nat := 0xFFFF

  /** The parts the host knows: code size and block size. */
  predicate KnownPart(codeSize: nat, block: nat) {
    || ((codeSize == 0x2000 || codeSize == 0x4000 || codeSize == 0x8000) && block == 128)
    || ((codeSize == 0x10000 || codeSize == 0x20000) && block == 256)
  }

  // ----- page addresses on the wire -----

  /** The address word the host puts in front of a block. */
  function HostAddress(codeSize: nat, addr: nat): (w: nat)
    ensures w < 65536
  {
    if codeSize < 0x10000 then addr % 65536 else addr / 256 % 65536
  }

  /** The page address a device with this much flash reads from the word. */
  function DeviceAddress(flashSize: nat, w: nat): (a: nat) {
    if flashSize > 0x10000 then w * 256 else w
  }

  /** Host and device mean the same pages exactly on parts other than 64 KiB,
      where the host shifts the address and the device does not. */
  lemma AddressesAgreeIff(codeSize: nat, block: nat)
    requires KnownPart(codeSize, block)
    ensures (forall k: nat | k * block < codeSize ::
               DeviceAddress(codeSize, HostAddress(codeSize, k * block)) == k * block)
            <==> codeSize != 0x10000
  {
    if codeSize == 0x10000 {
      assert 1 * block < codeSize && DeviceAddress(codeSize, HostAddress(codeSize, 1 * block)) == 1;
    } else if codeSize == 0x20000 {
      forall k: nat | k * block < codeSize
        ensures DeviceAddress(codeSize, HostAddress(codeSize, k * block)) == k * block
      {
        assert k * block / 256 == k && k < 512;
      }
    }
  }

  /** No page address is mistaken for the start-application command. */
  lemma NeverStartsEarly(codeSize: nat, block: nat, addr: nat)
    requires KnownPart(codeSize, block) && addr < codeSize
    ensures HostAddress(codeSize, addr) != START_APPLICATION
  {
  }

  // ----- the device -----

  /** A page report stores exactly its data, whatever the buffer held before. */
  lemma PageProgrammedExact(m: Memory, a: nat, data: seq<byte>)
    requires ValidMemory(m) && Aligned(a, |m.buffer|) && |data| == |m.buffer| && a + |data| <= |m.flash|
    ensures Rewritten(m, a, data) == Memory(Put(m.flash, a, data), Blank(|m.buffer|))
  {
    RewrittenExact(m, a, data);
    assert data + m.buffer[|data|..] == data;
  }

  class Bootloader {
    const chip: Chip
    var runBootloader: bool

    ghost predicate Valid()
      reads this, chip
    {
      chip.Valid()
    }

    constructor (chip: Chip)
      requires chip.Valid()
      ensures Valid() && this.chip == chip && runBootloader
    {
      this.chip, runBootloader := chip, true;
    }

    /** The SetReport branch of EVENT_USB_Device_ControlRequest: an address word
        and one page of data. */
    method SetReport(report: seq<byte>)
      requires Valid() && |report| == |chip.mem.buffer| + 2
      modifies this, chip`mem
      ensures Valid()
      ensures var w := Word(report[1], report[0]);
              && runBootloader == (old(runBootloader) && w != START_APPLICATION)
              && chip.mem == if w == START_APPLICATION then old(chip.mem)
                             else Rewritten(old(chip.mem), DeviceAddress(|old(chip.mem).flash|, w), report[2..])
    {
      hide Offset, Fill, Erase, Write;
      var w := Word(report[1], report[0]);
      var pageAddress := if |chip.mem.flash| > 0x10000 then w * 256 else w;
      if w == START_APPLICATION {
        runBootloader := false;
        return;
      }
      chip.PageErase(pageAddress);
      ghost var e, data := chip.mem, report[2..];
      var words := |chip.mem.buffer| / 2;
      for pageWord := 0 to words
        invariant Valid() && |chip.mem.buffer| == |e.buffer| && runBootloader == old(runBootloader)
        invariant chip.mem == Filled(e, pageAddress, data, pageWord)
      {
        chip.PageFill(pageAddress + 2 * pageWord, report[2 + 2 * pageWord], report[3 + 2 * pageWord]);
      }
      chip.PageWrite(pageAddress);
    }
  }

  // ----- the host -----

  /** ihex_bytes_within_range. */
  predicate Defined(img: Image, begin: nat, end: nat)
    requires ValidImage(img)
  {
    end < MAX_MEMORY && exists i | begin <= i <= end :: img.mask[i]
  }

  /** The host sends block 0 always and other blocks when the file defines a
      byte of them. */
  predicate Sends(img: Image, block: nat, addr: nat)
    requires ValidImage(img) && block > 0
  {
    addr == 0 || Defined(img, addr, addr + block - 1)
  }

  /** ihex_get_data: a block that reaches the last image byte reads as blank. */
  function DataByte(img: Image, block: nat, addr: nat, i: nat): (b: byte)
    requires ValidImage(img)
  {
    if addr + block >= MAX_MEMORY || i >= MAX_MEMORY || !img.mask[i] then BLANK else img.image[i]
  }

  function BlockData(img: Image, block: nat, addr: nat): (d: seq<byte>)
    requires ValidImage(img)
    ensures |d| == block
  {
    seq(block, k requires 0 <= k < block => DataByte(img, block, addr, addr + k))
  }

  /** Flash once every block below `end` has been visited. */
  function Sent(flash: seq<byte>, img: Image, block: nat, end: nat): (r: seq<byte>)
    requires ValidImage(img) && ValidPage(block)
    ensures |r| == |flash|
  {
    seq(|flash|, i requires 0 <= i < |flash| =>
      if i < end && Sends(img, block, PageOf(i, block)) then DataByte(img, block, PageOf(i, block), i) else flash[i])
  }

  /** One block visited: sent or skipped. */
  lemma SentNext(flash: seq<byte>, img: Image, block: nat, addr: nat)
    requires ValidImage(img) && ValidPage(block) && Aligned(addr, block) && addr + block <= |flash|
    ensures Sent(flash, img, block, addr + block)
            == if Sends(img, block, addr) then Put(Sent(flash, img, block, addr), addr, BlockData(img, block, addr))
               else Sent(flash, img, block, addr)
  {
    hide Offset, Sends, DataByte;
    var l, n, d := Sent(flash, img, block, addr), Sent(flash, img, block, addr + block), BlockData(img, block, addr);
    forall i | addr <= i < addr + block ensures PageOf(i, block) == addr {
      OffsetShift(addr, i - addr, block);
      SmallOffset(i - addr, block);
    }
    if Sends(img, block, addr) {
      var p := Put(l, addr, d);
      forall i | 0 <= i < |flash| ensures n[i] == p[i] {}
      assert n == p;
    } else {
      assert n == l;
    }
  }

  // ----- the 64 KiB part -----

  /** Flash after the page report for the block at addr: on the 64 KiB part the
      device takes the host's shifted word for an address in page 0, and the words
      of the report wrap round there. */
  function Landed(codeSize: nat, flash: seq<byte>, addr: nat, data: seq<byte>): (r: seq<byte>)
    requires codeSize == 0x10000 ==> addr / 256 < |data|
    ensures |r| == |flash|
  {
    if codeSize == 0x10000 then Put(flash, 0, Rotated(data, Even(addr / 256))) else Put(flash, addr, data)
  }

  /** Flash of the 64 KiB part once n blocks have been visited. */
  function Misplaced(flash: seq<byte>, img: Image, n: nat): (r: seq<byte>)
    requires ValidImage(img) && n <= 256
    ensures |r| == |flash|
    decreases n
  {
    if n == 0 then flash
    else if Sends(img, 256, 256 * (n - 1)) then Put(flash, 0, Rotated(BlockData(img, 256, 256 * (n - 1)), Even(n - 1)))
    else Misplaced(flash, img, n - 1)
  }

  /** Flash once every block below `end` has been visited, on any part. */
  function Received(codeSize: nat, flash: seq<byte>, img: Image, block: nat, end: nat): (r: seq<byte>)
    requires ValidImage(img) && ValidPage(block) && end <= codeSize
    ensures |r| == |flash|
  {
    if codeSize == 0x10000 then Misplaced(flash, img, end / 256) else Sent(flash, img, block, end)
  }

  lemma {:induction false} MisplacedPage(flash: seq<byte>, img: Image, n: nat, x: seq<byte>)
    requires ValidImage(img) && n <= 256 && |x| == 256 <= |flash|
    ensures Put(Misplaced(flash, img, n), 0, x) == Put(flash, 0, x)
    decreases n
  {
    hide Put, Rotated, BlockData, Sends;
    if n > 0 {
      if Sends(img, 256, 256 * (n - 1)) {
        PutOver(flash, 0, Rotated(BlockData(img, 256, 256 * (n - 1)), Even(n - 1)), x);
      } else {
        MisplacedPage(flash, img, n - 1, x);
      }
    }
  }

  lemma ReceivedNext(codeSize: nat, flash: seq<byte>, img: Image, block: nat, addr: nat)
    requires KnownPart(codeSize, block) && ValidImage(img) && ValidPage(block) && Aligned(addr, block)
    requires addr + block <= codeSize == |flash|
    ensures codeSize == 0x10000 ==> addr / 256 < block
    ensures Received(codeSize, flash, img, block, addr + block)
            == if Sends(img, block, addr)
               then Landed(codeSize, Received(codeSize, flash, img, block, addr), addr, BlockData(img, block, addr))
               else Received(codeSize, flash, img, block, addr)
  {
    hide Offset, Sent, Sends, Put, BlockData, Rotated;
    if codeSize != 0x10000 {
      SentNext(flash, img, block, addr);
    } else {
      OffsetIsRemainder(addr, block);
      var n := addr / 256;
      assert addr == 256 * n && (addr + 256) / 256 == n + 1;
      MisplacedPage(flash, img, n, Rotated(BlockData(img, 256, addr), Even(n)));
    }
  }

  /** One report of the 64 KiB part rewrites page 0. */
  lemma ReportWraps(m: Memory, w: nat, data: seq<byte>)
    requires ValidMemory(m) && |m.buffer| == |data| == 256 && w < 256 <= |m.flash|
    ensures Rewritten(m, w, data) == Memory(Put(m.flash, 0, Rotated(data, Even(w))), Blank(256))
  {
    hide Rewritten, Put, Rotated, Offset;
    SmallOffset(w, 256);
    RewrittenWraps(m, w, data);
  }

  /** The host's globals: image and mask buffers filled in place. */
  class Host {
    const firmwareImage: array<byte>
    const firmwareMask: array<bool>
    var byteCount: nat
    var extendedAddr: nat
    var endRecordSeen: bool

    ghost predicate Valid()
      reads this
    {
      firmwareImage.Length == MAX_MEMORY && firmwareMask.Length == MAX_MEMORY
    }

    ghost function View(): (img: Image)
      requires Valid()
      reads this, firmwareImage, firmwareMask
    {
      Image(firmwareImage[..], firmwareMask[..], byteCount, extendedAddr, endRecordSeen)
    }

    constructor ()
      ensures Valid() && fresh(firmwareImage) && fresh(firmwareMask) && View() == EmptyImage()
    {
      firmwareImage := new byte[MAX_MEMORY](_ => BLANK);
      firmwareMask := new bool[MAX_MEMORY](_ => false);
      byteCount, extendedAddr, endRecordSeen := 0, 0, false;
      new;
      assert firmwareImage[..] == Blank(MAX_MEMORY);
      assert firmwareMask[..] == seq(MAX_MEMORY, _ => false);
    }

    /** The data loop of parse_hex_line. An index past the arrays, which the
        wrapped range check can let through, is undefined in the source; here
        it has no effect. */
    method StoreFields(line: string, at: nat, len: nat) returns (ok: bool, sum: nat)
      requires Valid()
      modifies firmwareImage, firmwareMask
      ensures ok == AreFields(line, 4, 4 + len)
      ensures ok ==> sum == Sum(Fields(line, 4, 4 + len))
      ensures ok ==> View() == Store(old(View()), at, Fields(line, 4, 4 + len)).(count := old(byteCount))
    {
      hide IsField, Field, Sum;
      ghost var i0, m0 := firmwareImage[..], firmwareMask[..];
      var num := 0;
      sum := 0;
      NoSum();
      assert Fields(line, 4, 4) == [];
      while num != len
        invariant 0 <= num <= len && AreFields(line, 4, 4 + num)
        invariant sum == Sum(Fields(line, 4, 4 + num))
        invariant forall a | 0 <= a < MAX_MEMORY ::
                    firmwareImage[a] == if at <= a < at + num then Field(line, 4 + (a - at)) else i0[a]
        invariant forall a | 0 <= a < MAX_MEMORY :: firmwareMask[a] == ((at <= a < at + num) || m0[a])
      {
        if !IsField(line, 4 + num) {
          return false, sum;
        }
        SumField(line, 4, 4 + num);
        sum := sum + Field(line, 4 + num) as nat;
        if at + num < MAX_MEMORY {
          firmwareImage[at + num] := Field(line, 4 + num);
          firmwareMask[at + num] := true;
        }
        num := num + 1;
      }
      ghost var s := Store(old(View()), at, Fields(line, 4, 4 + len));
      assert firmwareImage[..] == s.image && firmwareMask[..] == s.mask;
      ok := true;
    }

    /** The extended-address branch: the base changes only under a checksum. */
    method ParseExtended(line: string, sum: nat, linear: bool)
      requires Valid() && HasHeader(line) && sum == Sum(Fields(line, 0, 4))
      modifies this`extendedAddr
      ensures var p := ParseBase(line, linear);
              extendedAddr == if p.Base? then p.ext else old(extendedAddr)
    {
      hide IsField, Field, Sum;
      if !IsField(line, 4) || !IsField(line, 5) {
        return;
      }
      var i := Word(Field(line, 4), Field(line, 5));
      if !IsField(line, 6) {
        return;
      }
      SumField(line, 0, 4);
      SumField(line, 0, 5);
      SumField(line, 0, 6);
      var total := sum + Field(line, 4) as nat + Field(line, 5) as nat;
      if (total + Field(line, 6) as nat) % 256 != 0 {
        return;
      }
      extendedAddr := if linear then i * 65536 else i * 16;
    }

    /** The data branch, with the header's byte sum. */
    method ParseData(line: string, sum: nat, at: nat, len: nat) returns (ok: bool)
      requires Valid() && HasHeader(line) && sum == Sum(Fields(line, 0, 4)) && len == Field(line, 0) as nat
      modifies this`byteCount, firmwareImage, firmwareMask
      ensures ok == (AreFields(line, 4, 5 + len) && Sum(Fields(line, 0, 5 + len)) % 256 == 0)
      ensures ok ==> View() == Store(old(View()), at, Fields(line, 4, 4 + len))
    {
      hide IsField, Field, Sum, Store;
      var stored, dataSum := StoreFields(line, at, len);
      byteCount := byteCount + len;
      if !stored {
        return false;
      }
      if !IsField(line, 4 + len) {
        return false;
      }
      SumSplit(line, 4, 4 + len);
      SumField(line, 0, 4 + len);
      StoreCount(old(View()), at, Fields(line, 4, 4 + len));
      ok := (sum + dataSum + Field(line, 4 + len) as nat) % 256 == 0;
    }

    /** parse_hex_line once the header and the address range are accepted. */
    method ParseRecord(line: string, len: nat, addr: nat, code: byte) returns (ok: bool)
      requires Valid() && HasHeader(line) && len == Field(line, 0) as nat
      requires addr == Word(Field(line, 1), Field(line, 2)) && code == Field(line, 3)
      requires |line| >= 11 + 2 * len && Wrap(addr + extendedAddr + len) < MAX_MEMORY
      modifies this, firmwareImage, firmwareMask
      ensures Valid()
      ensures ok == ParseLine(old(View()), line).Some?
      ensures ok ==> View() == ParseLine(old(View()), line).value
    {
      hide IsField, Field, Sum, Store, Fields, AreFields, ParseBase, Parse, Word;
      HeaderFields(line);
      ParseByCode(line, extendedAddr);
      var sum := len + Field(line, 1) as nat + Field(line, 2) as nat + code as nat;
      assert sum == Sum(Fields(line, 0, 4));
      if code != 0 {
        if code == 1 {
          endRecordSeen := true;
        } else if code == 2 && len == 2 {
          ParseBaseKind(line, false);
          ParseExtended(line, sum, false);
        } else if code == 4 && len == 2 {
          ParseBaseKind(line, true);
          ParseExtended(line, sum, true);
        }
        return true;
      }
      ok := ParseData(line, sum, addr + extendedAddr, len);
    }

    method ParseHexLine(line: string) returns (ok: bool)
      requires Valid()
      modifies this, firmwareImage, firmwareMask
      ensures Valid()
      ensures ok == ParseLine(old(View()), line).Some?
      ensures ok ==> View() == ParseLine(old(View()), line).value
    {
      hide IsField, Field, Sum, Store, Fields, AreFields, ParseBase, Word;
      if |line| < 11 || line[0] != ':' {
        return false;
      }
      HeaderFields(line);
      if !IsField(line, 0) || !IsField(line, 1) || !IsField(line, 2) || !IsField(line, 3) {
        return false;
      }
      var len := Field(line, 0) as nat;
      if |line| < 11 + 2 * len {
        return false;
      }
      var addr, code := Word(Field(line, 1), Field(line, 2)), Field(line, 3);
      if Wrap(addr + extendedAddr + len) >= MAX_MEMORY {
        return false;
      }
      ok := ParseRecord(line, len, addr, code);
    }

    /** read_intel_hex on the text of the file: the byte count, or -2 when a line
        does not parse. */
    method ReadIntelHex(text: string) returns (num: int)
      requires Valid()
      modifies this, firmwareImage, firmwareMask
      ensures Valid()
      ensures num >= 0 <==> ReadText(text).Some?
      ensures num >= 0 ==> View() == ReadText(text).value && num == byteCount
      ensures num < 0 ==> num == -2
    {
      hide ParseLine, Blank, CString, LineEnd;
      byteCount, endRecordSeen, extendedAddr := 0, false, 0;
      for i := 0 to MAX_MEMORY
        invariant forall a | 0 <= a < i :: firmwareImage[a] == BLANK && !firmwareMask[a]
        invariant byteCount == 0 && !endRecordSeen && extendedAddr == 0
      {
        firmwareImage[i] := BLANK;
        firmwareMask[i] := false;
      }
      assert firmwareImage[..] == Blank(MAX_MEMORY);
      assert firmwareMask[..] == seq(MAX_MEMORY, _ => false);
      assert View() == EmptyImage();
      var ok := ReadFileLines(text);
      num := if ok then byteCount else -2;
    }

    /** The fgets loop. */
    method ReadFileLines(text: string) returns (ok: bool)
      requires Valid()
      modifies this, firmwareImage, firmwareMask
      ensures Valid()
      ensures ok == ReadLines(old(View()), Buffers(text)).Some?
      ensures ok ==> View() == ReadLines(old(View()), Buffers(text)).value
    {
      hide ParseLine, CString, LineEnd;
      var k := 0;
      assert text[0..] == text;
      while k < |text| && !endRecordSeen
        invariant 0 <= k <= |text| && Valid()
        invariant ReadLines(old(View()), Buffers(text)) == ReadLines(View(), Buffers(text[k..]))
      {
        var next := Fgets(text, k);
        var buf := CString(text[k..next]);
        NextBuffer(text, k, next);
        if |buf| > 0 {
          ok := ParseHexLine(buf);
          if !ok {
            return;
          }
        }
        k := next;
      }
      ok := true;
    }

    /** ihex_bytes_within_range. */
    method BytesWithinRange(begin: nat, end: nat) returns (found: bool)
      requires Valid()
      ensures found == Defined(View(), begin, end)
    {
      if begin >= MAX_MEMORY || end >= MAX_MEMORY {
        return false;
      }
      var i := begin;
      while i <= end
        invariant begin <= i && forall k | begin <= k < i && k <= end :: !firmwareMask[k]
      {
        if firmwareMask[i] {
          return true;
        }
        i := i + 1;
      }
      return false;
    }

    /** ihex_get_data. */
    method GetData(addr: nat, len: nat) returns (bytes: seq<byte>)
      requires Valid()
      ensures bytes == BlockData(View(), len, addr)
    {
      bytes := [];
      for i := 0 to len
        invariant |bytes| == i && forall k | 0 <= k < i :: bytes[k] == DataByte(View(), len, addr, addr + k)
      {
        if addr + len >= MAX_MEMORY || !firmwareMask[addr + i] {
          bytes := bytes + [255];
        } else {
          bytes := bytes + [firmwareImage[addr + i]];
        }
      }
    }

    /** The programming loop of main, against a device whose flash is the part's
        code size; then, unless switched off, the start-application report. */
    method ProgramDevice(device: Bootloader, codeSize: nat, blockSize: nat, rebootAfterProgramming: bool)
      requires Valid() && device.Valid() && KnownPart(codeSize, blockSize)
      requires |device.chip.mem.flash| == codeSize && |device.chip.mem.buffer| == blockSize
      modifies device, device.chip`mem
      ensures device.Valid()
      ensures device.runBootloader == (old(device.runBootloader) && !rebootAfterProgramming)
      ensures ValidPage(blockSize)
      ensures device.chip.mem.flash == Received(codeSize, old(device.chip.mem.flash), View(), blockSize, codeSize)
    {
      hide Offset, Received, Landed, Sends, Rewritten, BlockData, Put, HostAddress, DeviceAddress, KnownPart, Defined;
      ghost var flash0, img := device.chip.mem.flash, View();
      assert ValidPage(blockSize) && blockSize > 0 by { PartPage(codeSize, blockSize); }
      PartBlocks(codeSize, blockSize);
      ReceivedNothing(codeSize, flash0, img, blockSize);
      AlignedZero(blockSize);
      var addr := 0;
      while addr < codeSize
        invariant 0 <= addr <= codeSize && Aligned(addr, blockSize) && (addr < codeSize ==> addr + blockSize <= codeSize)
        invariant device.Valid() && |device.chip.mem.buffer| == blockSize && |device.chip.mem.flash| == codeSize
        invariant device.runBootloader == old(device.runBootloader)
        invariant device.chip.mem.flash == Received(codeSize, flash0, img, blockSize, addr)
      {
        var send := true;
        if addr > 0 {
          send := BytesWithinRange(addr, addr + blockSize - 1);
        }
        ReceivedNext(codeSize, flash0, img, blockSize, addr);
        SendsCases(img, blockSize, addr);
        if send {
          var data := GetData(addr, blockSize);
          SendBlock(device, codeSize, blockSize, addr, data);
        }
        NextBlock(addr, codeSize, blockSize);
        addr := addr + blockSize;
      }
      if rebootAfterProgramming {
        var zeros := seq(blockSize, _ => 0 as byte);
        device.SetReport([0xFF, 0xFF] + zeros);
      }
    }

    /** One block on the wire. */
    method SendBlock(device: Bootloader, codeSize: nat, blockSize: nat, addr: nat, data: seq<byte>)
      requires device.Valid() && KnownPart(codeSize, blockSize) && BlockAligned(addr, blockSize)
      requires |device.chip.mem.flash| == codeSize && |device.chip.mem.buffer| == blockSize
      requires addr + blockSize <= codeSize && |data| == blockSize
      modifies device, device.chip`mem
      ensures device.Valid() && |device.chip.mem.buffer| == blockSize && |device.chip.mem.flash| == codeSize
      ensures device.runBootloader == old(device.runBootloader)
      ensures codeSize == 0x10000 ==> addr / 256 < blockSize
      ensures device.chip.mem == Memory(Landed(codeSize, old(device.chip.mem.flash), addr, data), Blank(blockSize))
    {
      hide Offset, Rewritten, Put, KnownPart, DeviceAddress, HostAddress, Rotated;
      PartPage(codeSize, blockSize);
      var w := if codeSize < 0x10000 then addr % 65536 else addr / 256 % 65536;
      var report := [(w % 256) as byte, (w / 256) as byte] + data;
      assert report[2..] == data && Word(report[1], report[0]) == w;
      HostAddressWord(codeSize, addr, w);
      NeverStartsEarly(codeSize, blockSize, addr);
      AddressAgrees(codeSize, blockSize, addr);
      device.SetReport(report);
      if codeSize != 0x10000 {
        PageProgrammedExact(old(device.chip.mem), addr, data);
      } else {
        SmallPartAddress(addr, blockSize);
        ReportWraps(old(device.chip.mem), addr / 256, data);
      }
    }
  }

  lemma NextBuffer(text: string, k: nat, next: nat)
    requires k < next <= |text| && next - k == LineEnd(text[k..], BUFFER)
    ensures Buffers(text[k..]) == [CString(text[k..next])] + Buffers(text[next..])
    ensures Buffers(text[k..])[1..] == Buffers(text[next..])
  {
    hide LineEnd, CString;
    assert text[k..][..next - k] == text[k..next] && text[k..][next - k..] == text[next..];
  }

  predicate BlockAligned(addr: nat, block: nat) {
    ValidPage(block) && Aligned(addr, block)
  }

  lemma HostAddressWord(codeSize: nat, addr: nat, w: nat)
    requires w == if codeSize < 0x10000 then addr % 65536 else addr / 256 % 65536
    ensures HostAddress(codeSize, addr) == w
  {
  }

  lemma PartPage(codeSize: nat, block: nat)
    requires KnownPart(codeSize, block)
    ensures ValidPage(block)
  {
  }

  lemma PartBlocks(codeSize: nat, block: nat)
    requires KnownPart(codeSize, block)
    ensures block <= codeSize
  {
  }

  lemma NextBlock(addr: nat, codeSize: nat, block: nat)
    requires KnownPart(codeSize, block) && ValidPage(block) && Aligned(addr, block) && addr + block <= codeSize
    ensures Aligned(addr + block, block)
    ensures addr + block < codeSize ==> addr + 2 * block <= codeSize
  {
    hide Offset;
    OffsetIsRemainder(addr, block);
    OffsetIsRemainder(addr + block, block);
    if block == 128 {
      assert addr % 128 == 0;
    } else {
      assert addr % 256 == 0;
    }
  }

  lemma AddressAgrees(codeSize: nat, block: nat, addr: nat)
    requires KnownPart(codeSize, block) && ValidPage(block) && Aligned(addr, block) && addr + block <= codeSize
    ensures codeSize != 0x10000 ==> DeviceAddress(codeSize, HostAddress(codeSize, addr)) == addr
  {
    hide Offset;
    OffsetIsRemainder(addr, block);
    if codeSize == 0x20000 {
      assert addr % 256 == 0;
    }
  }

  lemma SmallPartAddress(addr: nat, block: nat)
    requires KnownPart(0x10000, block) && addr < 0x10000
    ensures block == 256 && DeviceAddress(0x10000, HostAddress(0x10000, addr)) == addr / 256 < 256
  {
  }

  lemma ReceivedNothing(codeSize: nat, flash: seq<byte>, img: Image, block: nat)
    requires ValidImage(img) && ValidPage(block)
    ensures Received(codeSize, flash, img, block, 0) == flash
  {
    SentNothing(flash, img, block);
  }

  lemma SentNothing(flash: seq<byte>, img: Image, block: nat)
    requires ValidImage(img) && ValidPage(block)
    ensures Sent(flash, img, block, 0) == flash
  {
  }

  lemma SendsCases(img: Image, block: nat, addr: nat)
    requires ValidImage(img) && block > 0
    ensures Sends(img, block, addr) == (addr == 0 || Defined(img, addr, addr + block - 1))
  {
  }

  lemma ParseBaseKind(line: string, linear: bool)
    requires HasHeader(line)
    ensures ParseBase(line, linear).Base? || ParseBase(line, linear) == Ignored
  {
  }

  /** Parse once the header and the address range are accepted. */
  lemma ParseByCode(line: string, ext: nat)
    requires HasHeader(line)
    ensures var len, addr, code := Field(line, 0) as nat, Word(Field(line, 1), Field(line, 2)), Field(line, 3);
            |line| >= 11 + 2 * len && Wrap(addr + ext + len) < MAX_MEMORY ==>
              && (code == 1 ==> Parse(line, ext) == EndOfFile)
              && (code == 2 && len == 2 ==> Parse(line, ext) == ParseBase(line, false))
              && (code == 4 && len == 2 ==> Parse(line, ext) == ParseBase(line, true))
              && (code > 1 && !((code == 2 || code == 4) && len == 2) ==> Parse(line, ext) == Ignored)
              && (code == 0 ==>
                    Parse(line, ext) == if AreFields(line, 4, 5 + len) && Sum(Fields(line, 0, 5 + len)) % 256 == 0
                                        then DataLine(addr, Fields(line, 4, 4 + len)) else Bad)
  {
    hide IsField, Field, Sum, ParseBase;
  }

  lemma NoSum()
    ensures Sum([]) == 0
  {
  }

  lemma SumField(line: string, from: nat, k: nat)
    requires from <= k && AreFields(line, from, k) && IsField(line, k)
    ensures AreFields(line, from, k + 1)
    ensures Sum(Fields(line, from, k + 1)) == Sum(Fields(line, from, k)) + Field(line, k) as nat
  {
    var b := Field(line, k);
    assert Fields(line, from, k + 1) == Fields(line, from, k) + [b];
    SumAppend(Fields(line, from, k), [b]);
    assert [b][1..] == [] && Sum([b]) == b as nat + Sum([]);
  }

  lemma SumSplit(line: string, mid: nat, to: nat)
    requires mid <= to && AreFields(line, 0, mid) && AreFields(line, mid, to)
    ensures AreFields(line, 0, to)
    ensures Sum(Fields(line, 0, to)) == Sum(Fields(line, 0, mid)) + Sum(Fields(line, mid, to))
  {
    assert Fields(line, 0, to) == Fields(line, 0, mid) + Fields(line, mid, to);
    SumAppend(Fields(line, 0, mid), Fields(line, mid, to));
  }

  lemma HeaderFields(line: string)
    ensures AreFields(line, 0, 4) <==> IsField(line, 0) && IsField(line, 1) && IsField(line, 2) && IsField(line, 3)
    ensures AreFields(line, 0, 4) ==>
              Sum(Fields(line, 0, 4))
              == Field(line, 0) as nat + Field(line, 1) as nat + Field(line, 2) as nat + Field(line, 3) as nat
  {
    hide IsField, Field, Sum;
    if AreFields(line, 0, 4) {
      assert Fields(line, 0, 0) == [];
      NoSum();
      SumField(line, 0, 0);
      SumField(line, 0, 1);
      SumField(line, 0, 2);
      SumField(line, 0, 3);
    }
  }

  lemma StoreCount(s: Image, at: nat, bytes: seq<byte>)
    requires ValidImage(s)
    ensures Store(s, at, bytes) == Store(s, at, bytes).(count := s.count + |bytes|)
  {
  }
}
