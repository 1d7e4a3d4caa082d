/** The HID host loader's reader of Intel HEX files: from text lines to a 64 KiB
    image with a mask of the bytes the file defines. */
module HexImage {
  import opened Spm
  import opened IntelHex
  import opened TextFile

  /** MAX_MEMORY_SIZE. */
  const MAX_MEMORY: nat := 0x10000
  /** Range of the unsigned arithmetic on addresses. */
  const WORD: nat := 0x1_0000_0000

  /** An address sum in 32 bits. The base is at most 0xFFFF0000 and a line adds less
      than 0x10100, so a sum wraps once at most. */
  function Wrap(n: nat): (r: nat)
    ensures n < 2 * WORD ==> r == n % WORD
  {
    if n < WORD then n else n - WORD
  }

  // ----- hexadecimal fields -----

  /** Digits of either case, as sscanf's %x accepts them; -1 for others. */
  function Nibble(c: char): (v: int)
    ensures -1 <= v < 16
  {
    if '0' <= c <= '9' then c as int - '0' as int
    else if 'A' <= c <= 'F' then 10 + (c as int - 'A' as int)
    else if 'a' <= c <= 'f' then 10 + (c as int - 'a' as int)
    else -1
  }

  /** Byte number k of a record is the two-digit field at position 1 + 2k: byte
      0 is the count, 1 and 2 the address, 3 the type, then data and checksum. */
  predicate IsField(line: string, k: nat) {
    2 * k + 3 <= |line| && Nibble(line[2 * k + 1]) >= 0 && Nibble(line[2 * k + 2]) >= 0
  }

  function Field(line: string, k: nat): (b: byte)
    requires IsField(line, k)
  {
    (Nibble(line[2 * k + 1]) * 16 + Nibble(line[2 * k + 2])) as byte
  }

  predicate AreFields(line: string, from: nat, to: nat) {
    forall k | from <= k < to :: IsField(line, k)
  }

  function Fields(line: string, from: nat, to: nat): (bs: seq<byte>)
    requires from <= to && AreFields(line, from, to)
    ensures |bs| == to - from
  {
    seq(to - from, k requires 0 <= k < to - from => Field(line, from + k))
  }

  // ----- one line -----

  datatype Parsed = Bad | Ignored | EndOfFile | Base(ext: nat) | DataLine(addr: nat, bytes: seq<byte>)

  /** Header fields of a line that has them. */
  predicate HasHeader(line: string) {
    |line| >= 11 && line[0] == ':' && AreFields(line, 0, 4)
  }

  /** Segment words count 16 bytes, linear ones 64 KiB. */
  function ExtendedBase(word: nat, linear: bool): (a: nat) {
    if linear then word * 65536 else word * 16
  }

  /** An extended address line: it takes effect only with a valid checksum. */
  function ParseBase(line: string, linear: bool): (p: Parsed)
    requires HasHeader(line)
  {
    if AreFields(line, 0, 7) && Sum(Fields(line, 0, 7)) % 256 == 0
    then Base(ExtendedBase(Word(Field(line, 4), Field(line, 5)), linear))
    else Ignored
  }

  /** parse_hex_line with the current extended address. */
  function Parse(line: string, ext: nat): (p: Parsed) {
    if !HasHeader(line) then Bad
    else
      var len, addr, code := Field(line, 0) as nat, Word(Field(line, 1), Field(line, 2)), Field(line, 3);
      if |line| < 11 + 2 * len then Bad
      else if Wrap(addr + ext + len) >= MAX_MEMORY then Bad
      else if code == 1 then EndOfFile
      else if code == 2 && len == 2 then ParseBase(line, false)
      else if code == 4 && len == 2 then ParseBase(line, true)
      else if code != 0 then Ignored
      else if !AreFields(line, 4, 5 + len) || Sum(Fields(line, 0, 5 + len)) % 256 != 0 then Bad
      else DataLine(addr, Fields(line, 4, 4 + len))
  }

  // ----- the image -----

  /** firmware_image, firmware_mask, byte_count, extended_addr and
      end_record_seen. */
  datatype Image = Image(image: seq<byte>, mask: seq<bool>, count: nat, ext: nat, ended: bool)

  predicate ValidImage(s: Image) {
    |s.image| == MAX_MEMORY && |s.mask| == MAX_MEMORY
  }

  function EmptyImage(): (s: Image)
    ensures ValidImage(s)
  {
    Image(Blank(MAX_MEMORY), seq(MAX_MEMORY, _ => false), 0, 0, false)
  }

  /** The image with a record stored at its absolute address. */
  function Store(s: Image, at: nat, bytes: seq<byte>): (r: Image)
    requires ValidImage(s)
    ensures ValidImage(r)
  {
    s.(image := seq(MAX_MEMORY, a requires 0 <= a < MAX_MEMORY => if at <= a < at + |bytes| then bytes[a - at] else s.image[a]),
       mask := seq(MAX_MEMORY, a requires 0 <= a < MAX_MEMORY => (at <= a < at + |bytes|) || s.mask[a]),
       count := s.count + |bytes|)
  }

  datatype Option<T> = None | Some(value: T)

  function ParseLine(s: Image, line: string): (r: Option<Image>)
    requires ValidImage(s)
    ensures r.Some? ==> ValidImage(r.value)
  {
    match Parse(line, s.ext)
    case Bad => None
    case Ignored => Some(s)
    case EndOfFile => Some(s.(ended := true))
    case Base(ext) => Some(s.(ext := ext))
    case DataLine(addr, bytes) => Some(Store(s, addr + s.ext, bytes))
  }

  /** The loop of read_intel_hex over the C strings that fgets leaves: up to the
      end-of-file record, and one bad line fails the whole file. Only a buffer that
      starts with NUL is skipped; a blank line still holds its newline. */
  function ReadLines(s: Image, lines: seq<string>): (r: Option<Image>)
    requires ValidImage(s)
    ensures r.Some? ==> ValidImage(r.value)
    decreases |lines|
  {
    if |lines| == 0 || s.ended then Some(s)
    else if |lines[0]| == 0 then ReadLines(s, lines[1..])
    else match ParseLine(s, lines[0])
      case None => None
      case Some(s') => ReadLines(s', lines[1..])
  }

  /** read_intel_hex on the text of the file. */
  function ReadText(text: string): (r: Option<Image>)
    ensures r.Some? ==> ValidImage(r.value)
  {
    ReadLines(EmptyImage(), Buffers(text))
  }

  /** The first line, if there is one to read. */
  lemma FirstLine(s: Image, lines: seq<string>)
    requires ValidImage(s) && !s.ended && |lines| > 0 && |lines[0]| > 0
    ensures var r := ParseLine(s, lines[0]);
            ReadLines(s, lines) == if r.Some? then ReadLines(r.value, lines[1..]) else None
  {
    hide ParseLine;
  }

  lemma EndedRead(s: Image, lines: seq<string>)
    requires ValidImage(s) && s.ended
    ensures ReadLines(s, lines) == Some(s)
  {
  }

  // ----- what the file says -----

  datatype DataRecord = DataRecord(at: nat, bytes: seq<byte>)

  /** The data records before the end-of-file record, at absolute addresses. */
  function Records(lines: seq<string>, ext: nat): (rs: seq<DataRecord>)
    decreases |lines|
  {
    if |lines| == 0 then []
    else if |lines[0]| == 0 then Records(lines[1..], ext)
    else match Parse(lines[0], ext)
      case EndOfFile => []
      case Base(e) => Records(lines[1..], e)
      case DataLine(addr, bytes) => [DataRecord(addr + ext, bytes)] + Records(lines[1..], ext)
      case _ => Records(lines[1..], ext)
  }

  predicate Covers(r: DataRecord, a: nat) {
    r.at <= a < r.at + |r.bytes|
  }

  /** The byte the last record covering a gives it. */
  function Latest(rs: seq<DataRecord>, a: nat): (b: Option<byte>)
    decreases |rs|
  {
    if |rs| == 0 then None
    else
      var r := rs[|rs| - 1];
      if Covers(r, a) then Some(r.bytes[a - r.at]) else Latest(rs[..|rs| - 1], a)
  }

  function TotalBytes(rs: seq<DataRecord>): (n: nat)
    decreases |rs|
  {
    if |rs| == 0 then 0 else |rs[0].bytes| + TotalBytes(rs[1..])
  }

  /** The later records take precedence over the earlier ones. */
  lemma {:induction false} LatestAppend(rs: seq<DataRecord>, qs: seq<DataRecord>, a: nat)
    ensures Latest(rs + qs, a) == if Latest(qs, a).Some? then Latest(qs, a) else Latest(rs, a)
    decreases |qs|
  {
    if |qs| == 0 {
      assert rs + qs == rs;
    } else {
      var n, all := |qs| - 1, rs + qs;
      assert all[|all| - 1] == qs[n] && all[..|all| - 1] == rs + qs[..n];
      LatestAppend(rs, qs[..n], a);
    }
  }

  /** Reading from state s overlays the file's records on it. */
  lemma {:induction false} ReadOverlays(s: Image, lines: seq<string>, a: nat)
    requires ValidImage(s) && !s.ended && ReadLines(s, lines).Some? && a < MAX_MEMORY
    ensures var r, rs := ReadLines(s, lines).value, Records(lines, s.ext);
            && r.image[a] == (if Latest(rs, a).Some? then Latest(rs, a).value else s.image[a])
            && r.mask[a] == (Latest(rs, a).Some? || s.mask[a])
            && r.count == s.count + TotalBytes(rs)
    decreases |lines|
  {
    hide Parse, Latest, Covers;
    if |lines| == 0 {
      assert Latest([], a).None? && TotalBytes([]) == 0 by { NoRecords(a); }
    } else {
      var rest := lines[1..];
      if |lines[0]| == 0 {
        ReadOverlays(s, rest, a);
      } else {
        match Parse(lines[0], s.ext)
        case Ignored => ReadOverlays(s, rest, a);
        case EndOfFile => NoRecords(a);
        case Base(e) => ReadOverlays(s.(ext := e), rest, a);
        case DataLine(addr, bytes) =>
          var rec := DataRecord(addr + s.ext, bytes);
          ReadOverlays(Store(s, addr + s.ext, bytes), rest, a);
          LatestAppend([rec], Records(rest, s.ext), a);
          LatestOne(rec, a);
          StoreOne(s, rec, a);
          assert ([rec] + Records(rest, s.ext))[1..] == Records(rest, s.ext);
      }
    }
  }

  lemma NoRecords(a: nat)
    ensures Latest([], a).None? && TotalBytes([]) == 0
  {
  }

  lemma StoreOne(s: Image, r: DataRecord, a: nat)
    requires ValidImage(s) && a < MAX_MEMORY
    ensures var t := Store(s, r.at, r.bytes);
            && t.image[a] == (if Covers(r, a) then r.bytes[a - r.at] else s.image[a])
            && t.mask[a] == (Covers(r, a) || s.mask[a])
            && t.count == s.count + |r.bytes| && t.ext == s.ext && t.ended == s.ended
  {
  }

  lemma LatestOne(r: DataRecord, a: nat)
    ensures Latest([r], a) == if Covers(r, a) then Some(r.bytes[a - r.at]) else None
  {
    assert [r][..0] == [];
  }

  /** After a successful read every byte of the image is the one from the last
      data record covering it, 0xFF and unmasked when there is none, and the
      count is the total length of the records. */
  lemma ImageIsLatest(lines: seq<string>, a: nat)
    requires ReadLines(EmptyImage(), lines).Some? && a < MAX_MEMORY
    ensures var r, rs := ReadLines(EmptyImage(), lines).value, Records(lines, 0);
            && (r.mask[a] <==> Latest(rs, a).Some?)
            && r.image[a] == (if r.mask[a] then Latest(rs, a).value else BLANK)
            && r.count == TotalBytes(rs)
  {
    hide ReadLines, Records, Latest;
    ReadOverlays(EmptyImage(), lines, a);
  }

  // ----- only checked data is loaded -----

  /** A whole record: all its fields are digits and its bytes sum to zero. */
  predicate SumsToZero(line: string) {
    && HasHeader(line)
    && var n := 5 + Field(line, 0) as nat;
       AreFields(line, 0, n) && Sum(Fields(line, 0, n)) % 256 == 0
  }

  /** What the host asks of a line: a header, room for the data it announces, an
      address range inside the image, and a checksum if it is a data line. */
  predicate Acceptable(line: string, ext: nat) {
    && HasHeader(line) && |line| >= 11 + 2 * Field(line, 0) as nat
    && Wrap(Word(Field(line, 1), Field(line, 2)) + ext + Field(line, 0) as nat) < MAX_MEMORY
    && (Field(line, 3) == 0 ==> SumsToZero(line))
  }

  predicate EndsFile(line: string, ext: nat) {
    Parse(line, ext).EndOfFile?
  }

  /** The extended address in force at line i. */
  function BaseAt(lines: seq<string>, ext: nat, i: nat): (e: nat)
    requires i <= |lines|
    decreases i
  {
    if i == 0 then ext else NextBase(lines[i - 1], BaseAt(lines, ext, i - 1))
  }

  function NextBase(line: string, ext: nat): (e: nat) {
    if |line| > 0 && Parse(line, ext).Base? then Parse(line, ext).ext else ext
  }

  lemma NextBaseBound(line: string, ext: nat)
    requires ext <= 0xFFFF_0000
    ensures NextBase(line, ext) <= 0xFFFF_0000
  {
    hide AreFields, Fields, Sum, Field, HasHeader;
  }

  /** In any file, the range check of every line is the 32-bit one. */
  lemma {:induction false} WrapIsModulo(lines: seq<string>, i: nat, addr: nat, len: nat)
    requires i <= |lines| && addr < 65536 && len < 256
    ensures BaseAt(lines, 0, i) <= 0xFFFF_0000
    ensures Wrap(addr + BaseAt(lines, 0, i) + len) == (addr + BaseAt(lines, 0, i) + len) % WORD
    decreases i
  {
    hide NextBase;
    if i > 0 {
      WrapIsModulo(lines, i - 1, addr, len);
      NextBaseBound(lines[i - 1], BaseAt(lines, 0, i - 1));
    }
  }

  /** No line before line i ends the file. */
  predicate Reached(lines: seq<string>, ext: nat, i: nat)
    requires i <= |lines|
  {
    forall j | 0 <= j < i :: |lines[j]| == 0 || !EndsFile(lines[j], BaseAt(lines, ext, j))
  }

  /** Every buffer the file reaches, those that start with NUL aside, is acceptable. */
  predicate AllChecked(lines: seq<string>, ext: nat) {
    forall i | 0 <= i < |lines| && Reached(lines, ext, i) :: |lines[i]| == 0 || Acceptable(lines[i], BaseAt(lines, ext, i))
  }

  /** The parser refuses exactly the lines that are not acceptable, and takes data and
      extended addresses only from lines that sum to zero. */
  lemma BadIff(line: string, ext: nat)
    ensures Parse(line, ext).Bad? <==> !Acceptable(line, ext)
    ensures Parse(line, ext).DataLine? || Parse(line, ext).Base? ==> SumsToZero(line)
  {
    hide Sum, IsField, Field, Fields;
    if HasHeader(line) {
      assert AreFields(line, 4, 5 + Field(line, 0) as nat) <==> AreFields(line, 0, 5 + Field(line, 0) as nat);
    }
  }

  /** What each acceptable line is: data and end-of-file lines by their type alone, an
      extended address by type, length and checksum, and every other line nothing. */
  lemma LineKinds(line: string, ext: nat)
    requires Acceptable(line, ext)
    ensures var p, code, len := Parse(line, ext), Field(line, 3), Field(line, 0) as nat;
            && (p.DataLine? <==> code == 0) && (p.EndOfFile? <==> code == 1)
            && (p.Base? <==> (code == 2 || code == 4) && len == 2 && SumsToZero(line))
  {
    hide Sum, IsField, Field, Fields, AreFields;
    BadIff(line, ext);
  }

  /** The address and bytes of a data line are those its digits spell. */
  lemma LineData(line: string, ext: nat, k: nat)
    ensures var p := Parse(line, ext);
            p.DataLine? ==>
              && HasHeader(line) && p.addr == Word(Field(line, 1), Field(line, 2)) && |p.bytes| == Field(line, 0) as nat
              && (k < |p.bytes| ==> IsField(line, 4 + k) && p.bytes[k] == Field(line, 4 + k))
  {
    hide Sum, Field, IsField;
  }

  lemma {:induction false} BaseShift(lines: seq<string>, ext: nat, i: nat)
    requires i < |lines|
    ensures BaseAt(lines, ext, i + 1) == BaseAt(lines[1..], NextBase(lines[0], ext), i)
    decreases i
  {
    hide NextBase;
    if i > 0 {
      BaseShift(lines, ext, i - 1);
      assert lines[1..][i - 1] == lines[i];
    } else {
      assert BaseAt(lines, ext, 0) == ext;
    }
  }

  lemma ReachedShift(lines: seq<string>, ext: nat, i: nat)
    requires i < |lines|
    ensures Reached(lines, ext, i + 1)
            <==> (|lines[0]| == 0 || !EndsFile(lines[0], ext)) && Reached(lines[1..], NextBase(lines[0], ext), i)
  {
    hide EndsFile, NextBase;
    var rest, e := lines[1..], NextBase(lines[0], ext);
    forall j | 0 <= j < i
      ensures lines[j + 1] == rest[j] && BaseAt(lines, ext, j + 1) == BaseAt(rest, e, j)
    {
      BaseShift(lines, ext, j);
    }
    assert BaseAt(lines, ext, 0) == ext;
    if Reached(lines, ext, i + 1) {
      forall j | 0 <= j < i ensures |rest[j]| == 0 || !EndsFile(rest[j], BaseAt(rest, e, j)) {
        assert |lines[j + 1]| == 0 || !EndsFile(lines[j + 1], BaseAt(lines, ext, j + 1));
      }
    } else if Reached(rest, e, i) {
      forall j | 0 < j < i + 1 ensures |lines[j]| == 0 || !EndsFile(lines[j], BaseAt(lines, ext, j)) {
        assert |rest[j - 1]| == 0 || !EndsFile(rest[j - 1], BaseAt(rest, e, j - 1));
      }
    }
  }

  lemma CheckedShift(lines: seq<string>, ext: nat)
    requires |lines| > 0
    ensures AllChecked(lines, ext)
            <==> && (|lines[0]| == 0 || Acceptable(lines[0], ext))
                 && ((|lines[0]| > 0 && EndsFile(lines[0], ext)) || AllChecked(lines[1..], NextBase(lines[0], ext)))
  {
    hide Acceptable, EndsFile, Reached, NextBase;
    var rest, e := lines[1..], NextBase(lines[0], ext);
    assert Reached(lines, ext, 0) by { ReachedFirst(lines, ext); }
    assert BaseAt(lines, ext, 0) == ext;
    forall i | 0 <= i < |rest|
      ensures rest[i] == lines[i + 1] && BaseAt(lines, ext, i + 1) == BaseAt(rest, e, i)
      ensures Reached(lines, ext, i + 1) <==> (|lines[0]| == 0 || !EndsFile(lines[0], ext)) && Reached(rest, e, i)
    {
      BaseShift(lines, ext, i);
      ReachedShift(lines, ext, i);
    }
    if AllChecked(lines, ext) && (|lines[0]| == 0 || !EndsFile(lines[0], ext)) {
      forall i | 0 <= i < |rest| && Reached(rest, e, i) ensures |rest[i]| == 0 || Acceptable(rest[i], BaseAt(rest, e, i)) {
        assert Reached(lines, ext, i + 1);
      }
    }
    if (|lines[0]| == 0 || Acceptable(lines[0], ext))
       && ((|lines[0]| > 0 && EndsFile(lines[0], ext)) || AllChecked(rest, e)) {
      forall i | 0 < i < |lines| && Reached(lines, ext, i) ensures |lines[i]| == 0 || Acceptable(lines[i], BaseAt(lines, ext, i)) {
        assert rest[i - 1] == lines[i - 1 + 1];
      }
    }
  }

  lemma ReachedFirst(lines: seq<string>, ext: nat)
    ensures Reached(lines, ext, 0)
  {
  }

  /** A file is read exactly when every line it reaches is acceptable; otherwise
      the host gives up and sends nothing. */
  lemma {:induction false} ReadIffChecked(s: Image, lines: seq<string>)
    requires ValidImage(s) && !s.ended
    ensures ReadLines(s, lines).Some? <==> AllChecked(lines, s.ext)
    decreases |lines|
  {
    hide Parse, Acceptable, Store, AllChecked;
    if |lines| == 0 {
      assert AllChecked(lines, s.ext) by { NoLines(s.ext); }
    } else {
      CheckedShift(lines, s.ext);
      BadIff(lines[0], s.ext);
      if |lines[0]| == 0 {
        ReadIffChecked(s, lines[1..]);
      } else {
        match Parse(lines[0], s.ext)
        case Bad =>
        case Ignored => ReadIffChecked(s, lines[1..]);
        case EndOfFile =>
        case Base(e) => ReadIffChecked(s.(ext := e), lines[1..]);
        case DataLine(addr, bytes) =>
          StoreKeeps(s, addr + s.ext, bytes);
          ReadIffChecked(Store(s, addr + s.ext, bytes), lines[1..]);
      }
    }
  }

  /** The same of the text of a file. */
  lemma TextReadIff(text: string)
    ensures ReadText(text).Some? <==> AllChecked(Buffers(text), 0)
  {
    hide ReadLines, AllChecked, Buffers;
    ReadIffChecked(EmptyImage(), Buffers(text));
  }

  /** A blank line before the end-of-file line fails the file: its buffer is not
      empty, and does not start with a colon. */
  lemma BlankLineRefused(text: string, i: nat)
    requires i < |Buffers(text)| && Reached(Buffers(text), 0, i)
    ensures Buffers(text)[i] == "\n" || Buffers(text)[i] == "\r\n" ==> ReadText(text).None?
  {
    hide ReadText, Reached, Buffers;
    TextReadIff(text);
  }

  lemma NoLines(ext: nat)
    ensures AllChecked([], ext)
  {
  }

  lemma StoreKeeps(s: Image, at: nat, bytes: seq<byte>)
    requires ValidImage(s)
    ensures Store(s, at, bytes).ext == s.ext && Store(s, at, bytes).ended == s.ended
  {
  }
}
