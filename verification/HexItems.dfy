/** Files with extended address records: what the host stores is what the records
    mean, segment words counting 16 bytes and linear ones 64 KiB. */
module HexItems {
  import opened Spm
  import opened Chunks
  import opened IntelHex
  import opened TextFile
  import opened HexImage
  import opened HidResults
  import opened HexCase

  /** Extended address, data and any other record but the end of file. */
  datatype Item =
    | Segment(hi: byte, lo: byte) | Linear(hi: byte, lo: byte)
    | Bytes(at: nat, data: seq<byte>) | Other(kind: byte, data: seq<byte>)

  function ItemRecord(i: Item): (text: string)
    requires i.Bytes? ==> |i.data| < 256 && i.at < 0x10000
    requires i.Other? ==> |i.data| < 256
  {
    match i
    case Segment(hi, lo) => Record(0, 2, [hi, lo])
    case Linear(hi, lo) => Record(0, 4, [hi, lo])
    case Bytes(at, data) => Record(at, 0, data)
    case Other(kind, data) => Record(0, kind, data)
  }

  /** The base behind an item, most significant byte first. */
  function NextExt(i: Item, ext: nat): (e: nat) {
    match i
    case Segment(hi, lo) => 16 * (256 * hi as nat + lo as nat)
    case Linear(hi, lo) => 65536 * (256 * hi as nat + lo as nat)
    case Bytes(_, _) => ext
    case Other(_, _) => ext
  }

  /** The record is within the image, under the base before it. */
  predicate Inside(i: Item, ext: nat) {
    match i
    case Bytes(at, data) => |data| < 256 && at + ext + |data| < MAX_MEMORY
    case Other(kind, data) => |data| < 256 && ext + |data| < MAX_MEMORY && kind != 0 && kind != 1 && kind != 2 && kind != 4
    case _ => ext + 2 < MAX_MEMORY
  }

  predicate AllInside(items: seq<Item>, ext: nat)
    decreases |items|
  {
    if |items| == 0 then ext < MAX_MEMORY else Inside(items[0], ext) && AllInside(items[1..], NextExt(items[0], ext))
  }

  function ItemLines(items: seq<Item>, ext: nat, eol: string): (lines: seq<string>)
    requires AllInside(items, ext)
    decreases |items|
  {
    if |items| == 0 then [Record(0, 1, []) + eol]
    else [ItemRecord(items[0]) + eol] + ItemLines(items[1..], NextExt(items[0], ext), eol)
  }

  /** What the records mean: data stored at its address on top of the base. */
  function Meaning(s: Image, items: seq<Item>, ext: nat): (r: Image)
    requires ValidImage(s)
    ensures ValidImage(r)
    decreases |items|
  {
    if |items| == 0 then s.(ext := ext, ended := true)
    else
      var t := if items[0].Bytes? then Store(s, items[0].at + ext, items[0].data) else s;
      Meaning(t, items[1..], NextExt(items[0], ext))
  }

  /** A record of any kind whose range is inside the image, through the parser. */
  lemma RecordAt(address: nat, kind: byte, data: seq<byte>, eol: string, ext: nat)
    requires |data| < 256 && address + ext + |data| < MAX_MEMORY
    ensures var line := Record(address, kind, data) + eol;
            && (kind == 0 ==> Parse(line, ext) == DataLine(address, data))
            && (kind == 1 ==> Parse(line, ext) == EndOfFile)
            && (kind != 0 && kind != 1 && kind != 2 && kind != 4 ==> Parse(line, ext) == Ignored)
            && (kind == 2 && |data| == 2 ==> Parse(line, ext) == Base(16 * (256 * data[0] as nat + data[1] as nat)))
            && (kind == 4 && |data| == 2 ==> Parse(line, ext) == Base(65536 * (256 * data[0] as nat + data[1] as nat)))
  {
    hide Record, IsField, Field, Sum, Fields, RecordBytes;
    var line := Record(address, kind, data) + eol;
    RecordFields(address, kind, data, eol);
    RecordSum(address, kind, data);
    RecordHeader(address, kind, data, eol);
    ParsePlain(line, ext);
    if |data| == 2 {
      BaseOf(address, kind, data, eol);
    }
  }

  lemma BaseOf(address: nat, kind: byte, data: seq<byte>, eol: string)
    requires |data| == 2 && address < 0x10000
    ensures var line := Record(address, kind, data) + eol;
            && HasHeader(line)
            && ParseBase(line, false) == Base(16 * (256 * data[0] as nat + data[1] as nat))
            && ParseBase(line, true) == Base(65536 * (256 * data[0] as nat + data[1] as nat))
  {
    hide Record, IsField, Field, Sum;
    var line := Record(address, kind, data) + eol;
    RecordFields(address, kind, data, eol);
    RecordSum(address, kind, data);
    RecordHeader(address, kind, data, eol);
    assert Fields(line, 4, 6) == data;
    assert Fields(line, 4, 6)[0] == Field(line, 4) && Fields(line, 4, 6)[1] == Field(line, 5);
  }

  lemma ItemParses(i: Item, ext: nat, eol: string)
    requires Inside(i, ext)
    ensures Parse(ItemRecord(i) + eol, ext)
            == if i.Bytes? then DataLine(i.at, i.data) else if i.Other? then Ignored else Base(NextExt(i, ext))
    ensures |ItemRecord(i)| > 0
  {
    hide Record, Parse;
    match i
    case Segment(hi, lo) =>
      RecordAt(0, 2, [hi, lo], eol, ext);
      RecordFields(0, 2, [hi, lo], "");
    case Linear(hi, lo) =>
      RecordAt(0, 4, [hi, lo], eol, ext);
      RecordFields(0, 4, [hi, lo], "");
    case Bytes(at, data) =>
      RecordAt(at, 0, data, eol, ext);
      RecordFields(at, 0, data, "");
    case Other(kind, data) =>
      RecordAt(0, kind, data, eol, ext);
      RecordFields(0, kind, data, "");
  }

  lemma {:induction false} ItemsRead(s: Image, items: seq<Item>, eol: string)
    requires ValidImage(s) && !s.ended && AllInside(items, s.ext)
    ensures ReadLines(s, ItemLines(items, s.ext, eol)) == Option.Some(Meaning(s, items, s.ext))
    decreases |items|
  {
    hide Parse, Store, Record, ReadLines, ItemRecord;
    var lines := ItemLines(items, s.ext, eol);
    if |items| == 0 {
      RecordAt(0, 1, [], eol, s.ext);
      RecordFields(0, 1, [], eol);
      FirstLine(s, lines);
      EndedRead(s.(ended := true), lines[1..]);
    } else {
      var i, rest := items[0], items[1..];
      ItemParses(i, s.ext, eol);
      FirstLine(s, lines);
      assert lines[1..] == ItemLines(rest, NextExt(i, s.ext), eol);
      var t := if i.Bytes? then Store(s, i.at + s.ext, i.data) else s;
      StoreSame(s, i);
      ItemsRead(t.(ext := NextExt(i, s.ext)), rest, eol);
      MeaningExt(t, rest, NextExt(i, s.ext));
    }
  }

  lemma StoreSame(s: Image, i: Item)
    requires ValidImage(s)
    ensures i.Bytes? ==> var t := Store(s, i.at + s.ext, i.data); t.ext == s.ext && t.ended == s.ended
  {
  }

  /** The meaning does not look at the base the image carries. */
  lemma {:induction false} MeaningExt(s: Image, items: seq<Item>, ext: nat)
    requires ValidImage(s)
    ensures Meaning(s.(ext := ext), items, ext) == Meaning(s, items, ext)
    decreases |items|
  {
    if |items| > 0 && !items[0].Bytes? {
      var e := NextExt(items[0], ext);
      MeaningExt(s, items[1..], e);
      MeaningExt(s.(ext := ext), items[1..], e);
      assert s.(ext := ext).(ext := e) == s.(ext := e);
    } else if |items| > 0 {
      var t := Store(s, items[0].at + ext, items[0].data);
      assert Store(s.(ext := ext), items[0].at + ext, items[0].data) == t.(ext := ext);
      MeaningExt(t, items[1..], ext);
    }
  }

  lemma {:induction false} ItemsArrive(items: seq<Item>, ext: nat, eol: string)
    requires AllInside(items, ext) && LineEnding(eol)
    ensures Buffers(Flatten(ItemLines(items, ext, eol))) == ItemLines(items, ext, eol)
    decreases |items|
  {
    hide Record, Buffers;
    var lines := ItemLines(items, ext, eol);
    if |items| == 0 {
      RecordArrives(0, 1, [], eol, "");
      assert lines[1..] == [] && Flatten(lines) == lines[0] + "";
      assert Buffers("") == [] by { NoBuffers(); }
    } else {
      var rest := ItemLines(items[1..], NextExt(items[0], ext), eol);
      assert lines[1..] == rest && Flatten(lines) == lines[0] + Flatten(rest);
      ItemsArrive(items[1..], NextExt(items[0], ext), eol);
      match items[0]
      case Segment(hi, lo) => RecordArrives(0, 2, [hi, lo], eol, Flatten(rest));
      case Linear(hi, lo) => RecordArrives(0, 4, [hi, lo], eol, Flatten(rest));
      case Bytes(at, data) => RecordArrives(at, 0, data, eol, Flatten(rest));
      case Other(kind, data) => RecordArrives(0, kind, data, eol, Flatten(rest));
    }
  }

  /** The text of any such file, in either case, reads as what its records mean. */
  lemma ItemTextRead(text: string, items: seq<Item>, eol: string)
    requires AllInside(items, 0) && LineEnding(eol) && RaiseAll(text) == Flatten(ItemLines(items, 0, eol))
    ensures ReadText(text) == Option.Some(Meaning(EmptyImage(), items, 0))
  {
    hide ReadLines, Buffers, ItemLines, Meaning, Flatten, RaiseAll;
    TextRaised(text);
    ItemsArrive(items, 0, eol);
    ItemsRead(EmptyImage(), items, eol);
  }
}
