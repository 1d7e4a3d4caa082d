/** What loading a file over HID guarantees: which image bytes reach flash,
    which pages are touched, and the round trip from the HEX writer through the
    host reader to the device. */
module HidResults {
  import opened Spm
  import opened Chunks
  import opened IntelHex
  import opened HexImage
  import opened TextFile
  import opened HidLoader

  // ----- which bytes arrive -----

  lemma PageStart(i: nat, block: nat)
    requires block == 128 || block == 256
    ensures ValidPage(block) && PageOf(i, block) == i - i % block
  {
    hide Offset;
    OffsetIsRemainder(i, block);
  }

  /** The block of byte i stops short of the last image byte. */
  lemma BlockReachesEnd(codeSize: nat, block: nat, i: nat)
    requires KnownPart(codeSize, block) && codeSize != 0x10000 && i < codeSize && i < MAX_MEMORY
    ensures ValidPage(block)
    ensures PageOf(i, block) + block < MAX_MEMORY <==> codeSize < 0x10000 || i < 0xFF00
  {
    PageStart(i, block);
    if block == 128 {
      assert i % 128 <= i;
    } else {
      assert i - i % 256 + 256 < 0x10000 <==> i < 0xFF00;
    }
  }

  /** A byte the file defines is in flash after loading exactly when it lies
      below 0xFF00 or the part is 32 KiB or smaller, or it is blank anyway. */
  lemma DefinedByteLoadedIff(flash: seq<byte>, img: Image, codeSize: nat, block: nat, i: nat)
    requires KnownPart(codeSize, block) && codeSize != 0x10000 && ValidImage(img) && |flash| == codeSize
    requires i < codeSize && i < MAX_MEMORY && img.mask[i]
    ensures ValidPage(block)
    ensures Sent(flash, img, block, codeSize)[i] == img.image[i]
            <==> codeSize < 0x10000 || i < 0xFF00 || img.image[i] == BLANK
  {
    hide Offset, PageOf;
    BlockReachesEnd(codeSize, block, i);
    PageStart(i, block);
    var p := PageOf(i, block);
    assert p % block == 0 && p <= i < p + block && p + block <= MAX_MEMORY by { BlockFits(i, p, codeSize, block); }
    assert Defined(img, p, p + block - 1);
  }

  lemma BlockFits(i: nat, p: nat, codeSize: nat, block: nat)
    requires KnownPart(codeSize, block) && i < MAX_MEMORY && p == i - i % block
    ensures p % block == 0 && p <= i < p + block && p + block <= MAX_MEMORY
  {
    if block == 128 {
      assert (i - i % 128) % 128 == 0;
    } else {
      assert (i - i % 256) % 256 == 0;
    }
  }

  /** A page other than the first without a defined byte is not touched. */
  lemma OtherPagesUntouched(flash: seq<byte>, img: Image, codeSize: nat, block: nat, i: nat)
    requires KnownPart(codeSize, block) && ValidImage(img) && |flash| == codeSize && i < codeSize && ValidPage(block)
    requires PageOf(i, block) != 0
    requires forall k | PageOf(i, block) <= k < PageOf(i, block) + block && k < MAX_MEMORY :: !img.mask[k]
    ensures Received(codeSize, flash, img, block, codeSize)[i] == flash[i]
  {
    hide Offset, PageOf, Misplaced;
    if codeSize == 0x10000 {
      MisplacedIsLast(flash, img, 256);
      PageStart(i, block);
      BehindFirst(i);
    }
  }

  lemma BehindFirst(i: nat)
    ensures i - i % 256 != 0 <==> i >= 256
  {
  }

  // ----- the 64 KiB part -----

  /** The last of the first n blocks that the host sends; block 0 always is. */
  function LastSent(img: Image, n: nat): (w: nat)
    requires ValidImage(img) && 0 < n
    ensures w < n && Sends(img, 256, 256 * w) && forall v | w < v < n :: !Sends(img, 256, 256 * v)
    decreases n
  {
    if n == 1 || Sends(img, 256, 256 * (n - 1)) then n - 1 else LastSent(img, n - 1)
  }

  lemma {:induction false} MisplacedIsLast(flash: seq<byte>, img: Image, n: nat)
    requires ValidImage(img) && 0 < n <= 256
    ensures var w := LastSent(img, n);
            Misplaced(flash, img, n) == Put(flash, 0, Rotated(BlockData(img, 256, 256 * w), Even(w)))
    decreases n
  {
    hide Put, Rotated, BlockData, Even, Defined;
    if n > 1 && !Sends(img, 256, 256 * (n - 1)) {
      MisplacedIsLast(flash, img, n - 1);
    }
  }

  /** The 64 KiB part ends with the last block sent, turned round, in page 0 and
      with every other page as it was: a byte of the file above page 0 is in flash
      exactly when it was there before. */
  lemma SmallPartLoads(flash: seq<byte>, img: Image)
    requires ValidImage(img) && |flash| == 0x10000
    ensures var r, w := Received(0x10000, flash, img, 256, 0x10000), LastSent(img, 256);
            && r == Rotated(BlockData(img, 256, 256 * w), Even(w)) + flash[256..]
            && forall i | 256 <= i < 0x10000 :: r[i] == img.image[i] <==> flash[i] == img.image[i]
  {
    hide Rotated, BlockData, LastSent, Even, Misplaced;
    MisplacedIsLast(flash, img, 256);
  }

  // ----- reading what the writer wrote -----

  lemma NibbleOfDigit(v: nat)
    requires v < 16
    ensures Nibble(Digit(v)) == v
  {
  }

  lemma {:induction false} HexBytesAt(bs: seq<byte>, k: nat)
    requires k < |bs|
    ensures HexBytes(bs)[2 * k] == Digit((bs[k] / 16) as nat)
    ensures HexBytes(bs)[2 * k + 1] == Digit((bs[k] % 16) as nat)
    decreases |bs|
  {
    hide Digit;
    if k > 0 {
      HexBytesAt(bs[1..], k - 1);
      assert HexBytes(bs)[2 * k] == HexBytes(bs[1..])[2 * (k - 1)];
      assert HexBytes(bs)[2 * k + 1] == HexBytes(bs[1..])[2 * (k - 1) + 1];
    }
  }

  /** The bytes of a record's text, checksum included. */
  function RecordBytes(address: nat, kind: byte, data: seq<byte>): (bs: seq<byte>)
    requires |data| < 256 && address < 0x10000
    ensures |bs| == 5 + |data|
  {
    var body := Header(|data|, address, kind) + data;
    body + [Complement(Sum(body))]
  }

  /** A record's text with whatever ends its line: the host looks at the text only. */
  lemma RecordField(address: nat, kind: byte, data: seq<byte>, eol: string, k: nat)
    requires |data| < 256 && address < 0x10000 && k < 5 + |data|
    ensures var line := Record(address, kind, data) + eol;
            && |line| == 11 + 2 * |data| + |eol| && line[0] == ':'
            && IsField(line, k) && Field(line, k) == RecordBytes(address, kind, data)[k]
  {
    hide Digit, Nibble, Sum, Complement, Header;
    var bs := RecordBytes(address, kind, data);
    HexBytesAt(bs, k);
    NibbleOfDigit((bs[k] / 16) as nat);
    NibbleOfDigit((bs[k] % 16) as nat);
    assert Record(address, kind, data) == ":" + HexBytes(bs);
  }

  lemma RecordSum(address: nat, kind: byte, data: seq<byte>)
    requires |data| < 256 && address < 0x10000
    ensures Sum(RecordBytes(address, kind, data)) % 256 == 0
  {
    hide Complement, Header;
    var body := Header(|data|, address, kind) + data;
    var c := Complement(Sum(body));
    SumAppend(body, [c]);
    assert [c][1..] == [] && Sum([c]) == c as nat + Sum([]);
  }

  lemma RecordFields(address: nat, kind: byte, data: seq<byte>, eol: string)
    requires |data| < 256 && address < 0x10000
    ensures var line, n := Record(address, kind, data) + eol, 5 + |data|;
            && |line| == 11 + 2 * |data| + |eol| && line[0] == ':'
            && AreFields(line, 0, n) && Fields(line, 0, n) == RecordBytes(address, kind, data)
            && Fields(line, 4, 4 + |data|) == data
  {
    hide Record, IsField, Field, Sum, Complement;
    var line, n, bs := Record(address, kind, data) + eol, 5 + |data|, RecordBytes(address, kind, data);
    forall k | 0 <= k < n ensures IsField(line, k) && Field(line, k) == bs[k] {
      RecordField(address, kind, data, eol, k);
    }
    RecordField(address, kind, data, eol, 0);
    assert Fields(line, 0, n) == bs;
    assert Fields(line, 4, 4 + |data|) == data;
  }

  /** The host reads a data record back as its address and data. */
  lemma RecordParses(address: nat, data: seq<byte>, eol: string)
    requires |data| < 256 && address + |data| < MAX_MEMORY
    ensures Parse(Record(address, DATA_RECORD, data) + eol, 0) == DataLine(address, data)
  {
    hide Record, IsField, Field, Sum, Fields, RecordBytes;
    RecordFields(address, DATA_RECORD, data, eol);
    RecordSum(address, DATA_RECORD, data);
    RecordHeader(address, DATA_RECORD, data, eol);
  }

  lemma RecordHeader(address: nat, kind: byte, data: seq<byte>, eol: string)
    requires |data| < 256 && address < 0x10000
    ensures var line := Record(address, kind, data) + eol;
            && HasHeader(line)
            && Field(line, 0) as nat == |data| && Field(line, 3) == kind
            && Word(Field(line, 1), Field(line, 2)) == address
  {
    hide Record, IsField, Field, Sum, Complement;
    RecordField(address, kind, data, eol, 0);
    RecordField(address, kind, data, eol, 1);
    RecordField(address, kind, data, eol, 2);
    RecordField(address, kind, data, eol, 3);
  }

  lemma EofParses(eol: string)
    ensures Parse(Record(0, EOF_RECORD, []) + eol, 0) == EndOfFile
  {
    hide Record, IsField, Field;
    RecordFields(0, EOF_RECORD, [], eol);
    RecordHeader(0, EOF_RECORD, [], eol);
  }

  /** How lines of text files end. */
  predicate LineEnding(eol: string) {
    eol == "\n" || eol == "\r\n"
  }

  /** The chunks as lines: consecutive data records from n on, then end of file. */
  function FileLines(n: nat, chunks: seq<seq<byte>>, eol: string): (lines: seq<string>)
    requires n + |Flatten(chunks)| < MAX_MEMORY
    requires forall c | c in chunks :: |c| < 256
    decreases |chunks|
  {
    if |chunks| == 0 then [Record(0, EOF_RECORD, []) + eol]
    else [Record(n, DATA_RECORD, chunks[0]) + eol] + FileLines(n + |chunks[0]|, chunks[1..], eol)
  }

  lemma {:induction false} HexBytesPlain(bs: seq<byte>)
    ensures Plain(HexBytes(bs))
    decreases |bs|
  {
    hide Digit;
    if |bs| > 0 {
      HexBytesPlain(bs[1..]);
      DigitPlain((bs[0] / 16) as nat);
      DigitPlain((bs[0] % 16) as nat);
    }
  }

  lemma DigitPlain(v: nat)
    requires v < 16
    ensures Digit(v) != '\n' && Digit(v) != '\0'
  {
  }

  /** A record's line reaches the host in one buffer. */
  lemma RecordArrives(address: nat, kind: byte, data: seq<byte>, eol: string, rest: string)
    requires |data| < 256 && address < 0x10000 && LineEnding(eol)
    ensures var line := Record(address, kind, data) + eol;
            Buffers(line + rest) == [line] + Buffers(rest)
  {
    hide Buffers, HexBytes, Complement, Sum, Header;
    var bs := RecordBytes(address, kind, data);
    HexBytesPlain(bs);
    assert Record(address, kind, data) == ":" + HexBytes(bs);
    var x := Record(address, kind, data) + eol[..|eol| - 1];
    assert Record(address, kind, data) + eol == x + "\n";
    LineArrives(x, rest);
  }

  /** The text of such a file comes in as its lines. */
  lemma {:induction false} TextArrives(n: nat, chunks: seq<seq<byte>>, eol: string)
    requires n + |Flatten(chunks)| < MAX_MEMORY && (forall c | c in chunks :: |c| < 256) && LineEnding(eol)
    ensures Buffers(Flatten(FileLines(n, chunks, eol))) == FileLines(n, chunks, eol)
    decreases |chunks|
  {
    hide Record, Buffers;
    var lines := FileLines(n, chunks, eol);
    if |chunks| == 0 {
      RecordArrives(0, EOF_RECORD, [], eol, "");
      assert lines[1..] == [] && Flatten(lines) == lines[0] + "";
      assert Buffers("") == [] by { NoBuffers(); }
    } else {
      var rest := FileLines(n + |chunks[0]|, chunks[1..], eol);
      assert lines[1..] == rest && Flatten(lines) == lines[0] + Flatten(rest);
      RecordArrives(n, DATA_RECORD, chunks[0], eol, Flatten(rest));
      TextArrives(n + |chunks[0]|, chunks[1..], eol);
    }
  }

  lemma NoBuffers()
    ensures Buffers("") == []
  {
  }

  lemma StoreAt(s: Image, at: nat, bytes: seq<byte>, a: nat)
    requires ValidImage(s) && a < MAX_MEMORY
    ensures Store(s, at, bytes).image[a] == if at <= a < at + |bytes| then bytes[a - at] else s.image[a]
    ensures Store(s, at, bytes).mask[a] == ((at <= a < at + |bytes|) || s.mask[a])
    ensures Store(s, at, bytes).ext == s.ext && Store(s, at, bytes).ended == s.ended
  {
  }

  lemma {:induction false} LinesRead(s: Image, n: nat, chunks: seq<seq<byte>>, eol: string, a: nat)
    requires ValidImage(s) && s.ext == 0 && !s.ended && a < MAX_MEMORY
    requires n + |Flatten(chunks)| < MAX_MEMORY && (forall c | c in chunks :: |c| < 256)
    ensures var r, image := ReadLines(s, FileLines(n, chunks, eol)), Flatten(chunks);
            && r.Some?
            && r.value.image[a] == (if n <= a < n + |image| then image[a - n] else s.image[a])
            && r.value.mask[a] == ((n <= a < n + |image|) || s.mask[a])
    decreases |chunks|
  {
    hide Parse, Store, Record, ReadLines;
    var lines := FileLines(n, chunks, eol);
    if |chunks| == 0 {
      EofParses(eol);
      RecordFields(0, EOF_RECORD, [], eol);
      FirstLine(s, lines);
      EndedRead(s.(ended := true), lines[1..]);
    } else {
      var c, rest := chunks[0], chunks[1..];
      RecordParses(n, c, eol);
      RecordFields(n, DATA_RECORD, c, eol);
      assert lines[1..] == FileLines(n + |c|, rest, eol);
      StoreAt(s, n, c, a);
      FirstLine(s, lines);
      LinesRead(Store(s, n, c), n + |c|, rest, eol, a);
    }
  }

  /** An image the host can take, in records of up to 255 bytes. */
  predicate ImageFile(chunks: seq<seq<byte>>, eol: string) {
    |Flatten(chunks)| < MAX_MEMORY && (forall c | c in chunks :: |c| < 256) && LineEnding(eol)
  }

  /** The text of an image's file: one record a line. */
  function FileText(chunks: seq<seq<byte>>, eol: string): (text: string)
    requires ImageFile(chunks, eol)
  {
    Flatten(FileLines(0, chunks, eol))
  }

  /** Reading the text of an image defines exactly its bytes. */
  lemma WrittenIsRead(chunks: seq<seq<byte>>, eol: string, a: nat)
    requires ImageFile(chunks, eol) && a < MAX_MEMORY
    ensures var r, image := ReadText(FileText(chunks, eol)), Flatten(chunks);
            && r.Some?
            && r.value.mask[a] == (a < |image|)
            && r.value.image[a] == if a < |image| then image[a] else BLANK
  {
    hide ReadLines, FileLines, Flatten, Buffers;
    TextArrives(0, chunks, eol);
    LinesRead(EmptyImage(), 0, chunks, eol, a);
  }

  /** The image the host reads from the file of `chunks`. */
  function FileImage(chunks: seq<seq<byte>>, eol: string): (img: Image)
    requires ImageFile(chunks, eol)
    ensures ValidImage(img)
  {
    WrittenIsRead(chunks, eol, 0);
    ReadText(FileText(chunks, eol)).value
  }

  lemma FileImageBytes(chunks: seq<seq<byte>>, eol: string, i: nat)
    requires ImageFile(chunks, eol) && i < MAX_MEMORY
    ensures var img, image := FileImage(chunks, eol), Flatten(chunks);
            img.mask[i] == (i < |image|) && (i < |image| ==> img.image[i] == image[i])
  {
    hide ReadText, FileText, Flatten;
    WrittenIsRead(chunks, eol, i);
  }

  /** Which images reach the flash of a part, whatever it held before: on the
      64 KiB part those within page 0, on the 128 KiB part those blank from 0xFF00
      on, on smaller parts all. */
  predicate Reaches(image: seq<byte>, codeSize: nat) {
    if codeSize == 0x10000 then |image| <= 256
    else codeSize < 0x10000 || forall i | 0xFF00 <= i < |image| :: image[i] == BLANK
  }

  lemma LargePartImage(chunks: seq<seq<byte>>, eol: string, flash: seq<byte>, codeSize: nat, block: nat)
    requires KnownPart(codeSize, block) && codeSize != 0x10000 && |flash| == codeSize && ValidPage(block)
    requires |Flatten(chunks)| <= codeSize && ImageFile(chunks, eol)
    ensures var image := Flatten(chunks);
            Received(codeSize, flash, FileImage(chunks, eol), block, codeSize)[..|image|] == image <==> Reaches(image, codeSize)
  {
    hide FileImage, Sent, Flatten, KnownPart;
    var img, image := FileImage(chunks, eol), Flatten(chunks);
    var r := Sent(flash, img, block, codeSize);
    forall i | 0 <= i < |image|
      ensures r[i] == image[i] <==> codeSize < 0x10000 || i < 0xFF00 || image[i] == BLANK
    {
      FileImageBytes(chunks, eol, i);
      DefinedByteLoadedIff(flash, img, codeSize, block, i);
    }
    assert r[..|image|] == image <==> forall i | 0 <= i < |image| :: r[i] == image[i];
  }

  lemma SmallImage(chunks: seq<seq<byte>>, eol: string, flash: seq<byte>)
    requires |flash| == 0x10000 && |Flatten(chunks)| <= 256 && ImageFile(chunks, eol)
    ensures var image := Flatten(chunks);
            Received(0x10000, flash, FileImage(chunks, eol), 256, 0x10000)[..|image|] == image
  {
    hide FileImage, Flatten, Received;
    var img, image := FileImage(chunks, eol), Flatten(chunks);
    SmallPartLoads(flash, img);
    var w := LastSent(img, 256);
    if w > 0 {
      var k :| 256 * w <= k <= 256 * w + 255 && img.mask[k];
      FileImageBytes(chunks, eol, k);
    }
    assert Rotated(BlockData(img, 256, 0), 0) == BlockData(img, 256, 0);
    forall i | 0 <= i < |image| ensures BlockData(img, 256, 0)[i] == image[i] {
      FileImageBytes(chunks, eol, i);
    }
  }

  lemma SmallPartMisses(chunks: seq<seq<byte>>, eol: string, flash: seq<byte>)
    requires |flash| == 0x10000 && 256 < |Flatten(chunks)| && ImageFile(chunks, eol)
    requires flash[256] != Flatten(chunks)[256]
    ensures var image := Flatten(chunks);
            Received(0x10000, flash, FileImage(chunks, eol), 256, 0x10000)[..|image|] != image
  {
    hide FileImage, Flatten, Received, LastSent, Rotated, BlockData;
    var img, image := FileImage(chunks, eol), Flatten(chunks);
    SmallPartLoads(flash, img);
    var r := Received(0x10000, flash, img, 256, 0x10000);
    assert r[..|image|][256] == r[256] == flash[256];
  }

  /** End to end: the file of an image, read by the host and sent, leaves the image
      in flash whatever the part held before, exactly for the images Reaches says. */
  lemma WrittenReachesFlashIff(chunks: seq<seq<byte>>, eol: string, codeSize: nat, block: nat)
    requires KnownPart(codeSize, block) && ValidPage(block)
    requires |Flatten(chunks)| <= codeSize && ImageFile(chunks, eol)
    ensures (forall flash: seq<byte> | |flash| == codeSize ::
               Received(codeSize, flash, FileImage(chunks, eol), block, codeSize)[..|Flatten(chunks)|] == Flatten(chunks))
            <==> Reaches(Flatten(chunks), codeSize)
  {
    hide FileImage, Received, Flatten;
    var image := Flatten(chunks);
    var other := seq(codeSize, i => if 256 == i < |image| && image[i] == BLANK then 0 else BLANK);
    if codeSize != 0x10000 {
      LargePartImage(chunks, eol, other, codeSize, block);
      forall flash: seq<byte> | |flash| == codeSize
        ensures Received(codeSize, flash, FileImage(chunks, eol), block, codeSize)[..|image|] == image
                <==> Reaches(image, codeSize)
      {
        LargePartImage(chunks, eol, flash, codeSize, block);
      }
    } else if |image| > 256 {
      SmallPartMisses(chunks, eol, other);
    } else {
      forall flash: seq<byte> | |flash| == codeSize
        ensures Received(codeSize, flash, FileImage(chunks, eol), block, codeSize)[..|image|] == image
      {
        SmallImage(chunks, eol, flash);
      }
    }
  }
}
