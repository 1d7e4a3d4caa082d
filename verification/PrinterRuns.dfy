/** Whole runs of the Printer bootloader: indifference to noise, the image
    theorem for any text layout and packet split, and what every run keeps. */
module PrinterRuns {
  import opened Spm
  import opened Chunks
  import opened IntelHex
  import opened Printer
  import opened PrinterPlacement

  // ----- noise -----

  /** The characters the parser can react to inside a record. */
  predicate Kept(ch: char) {
    ch == ':' || HexToDecimal(ch) >= 0
  }

  function Project(xs: string): (r: string)
    decreases |xs|
  {
    if |xs| == 0 then "" else (if Kept(xs[0]) then [xs[0]] else "") + Project(xs[1..])
  }

  /** Equal up to the fields that ':' resets, while no record is open. */
  predicate Alike(p: Parser, q: Parser) {
    || p == q
    || (p.phase == WaitLine && q == p.(checksum := q.checksum, addr := q.addr, readMSB := q.readMSB))
  }

  predicate AlikeLoaders(l: Loader, k: Loader) {
    Alike(l.p, k.p) && l.m == k.m
  }

  lemma NoiseStep(c: Part, p: Parser, ch: char)
    requires ValidPart(c) && !Kept(ch)
    ensures Step(c, p, ch).ops == [] && Alike(p, Step(c, p, ch).p)
  {
  }

  lemma AlikeStep(c: Part, p: Parser, q: Parser, ch: char)
    requires ValidPart(c) && Alike(p, q)
    ensures Step(c, p, ch).ops == Step(c, q, ch).ops
    ensures Alike(Step(c, p, ch).p, Step(c, q, ch).p)
  {
    if p.phase == WaitLine {
      WaitLineStep(c, p, ch);
      WaitLineStep(c, q, ch);
    }
  }

  lemma WaitLineStep(c: Part, p: Parser, ch: char)
    requires ValidPart(c) && p.phase == WaitLine
    ensures Step(c, p, ch)
            == Out(p.(checksum := 0, addr := p.base, readMSB := false, phase := if ch == ':' then ByteCount else WaitLine), [])
  {
  }

  lemma AlikeTrans(p: Parser, q: Parser, r: Parser)
    requires Alike(p, q) && (Alike(p, r) || Alike(r, p))
    ensures Alike(r, q)
  {
  }

  /** Reading a text and reading only its kept characters stay in step. */
  lemma {:induction false} NoiseFree(c: Part, l: Loader, k: Loader, xs: string)
    requires ValidLoader(c, l) && AlikeLoaders(l, k)
    ensures AlikeLoaders(Run(c, l, xs), Run(c, k, Project(xs)))
    decreases |xs|
  {
    hide Step, Alike, Kept, ExecAll;
    if |xs| > 0 {
      var ch, rest := xs[0], xs[1..];
      var l' := Apply(l, Step(c, l.p, ch));
      if Kept(ch) {
        AlikeStep(c, l.p, k.p, ch);
        assert ([ch] + Project(rest))[1..] == Project(rest);
        NoiseFree(c, l', Apply(k, Step(c, k.p, ch)), rest);
      } else {
        NoiseStep(c, l.p, ch);
        ExecNothing(l, Step(c, l.p, ch).p);
        AlikeTrans(l.p, k.p, l'.p);
        assert "" + Project(rest) == Project(rest);
        NoiseFree(c, l', k, rest);
      }
    }
  }

  /** Streams that agree on ':' and uppercase hexadecimal digits have the same
      effect on flash, page buffer, dirty flag, base address and run flag. */
  lemma SameProjectionSameEffect(c: Part, l: Loader, xs: string, ys: string)
    requires ValidLoader(c, l) && Project(xs) == Project(ys)
    ensures var r, s := Run(c, l, xs), Run(c, l, ys);
            && r.m == s.m && r.p.dirty == s.p.dirty && r.p.base == s.p.base && r.p.run == s.p.run
            && r.p.pageStart == s.p.pageStart && r.p.phase == s.p.phase
  {
    hide Run, Project;
    NoiseFree(c, l, l, xs);
    NoiseFree(c, l, l, ys);
  }

  // ----- the image theorem -----

  /** Any text whose kept characters are the HEX file of the image: however the
      image is split into even records and however the lines are laid out. */
  predicate Prints(c: Part, l: Loader, chunks: seq<seq<byte>>, text: string) {
    && ValidLoader(c, l) && c.boot <= |l.m.flash| && Fresh(l.p) && BufferEmpty(l.m)
    && (forall k | k in chunks :: 0 < |k| < 256 && |k| % 2 == 0)
    && |Flatten(chunks)| <= c.boot && |Flatten(chunks)| <= 0x10000
    && Project(text) == File(0, chunks)
  }

  lemma FreshTracks(c: Part, l: Loader)
    requires ValidLoader(c, l) && c.boot <= |l.m.flash| && Fresh(l.p) && BufferEmpty(l.m)
    ensures Tracking(c, l, l.m, [])
  {
    hide Streamed, Offset, PageOf;
    StreamedNothing(l.m, 0);
    AlignedZero(c.page);
    FirstPage(0, c.page);
  }

  lemma PrintedImage(c: Part, l: Loader, chunks: seq<seq<byte>>, text: string)
    requires Prints(c, l, chunks, text)
    ensures Run(c, l, text).m == Committed(l.m, Flatten(chunks))
    ensures !Run(c, l, text).p.run
  {
    hide Run, Project, Committed, Tracking, File;
    FreshTracks(c, l);
    PlaceFile(c, l, l.m, [], chunks);
    assert [] + Flatten(chunks) == Flatten(chunks);
    NoiseFree(c, l, l, text);
  }

  /** Flash after printing an image of at least one page: the image, the rest of
      its last page blank, every other cell as before. */
  lemma PrintedFlash(c: Part, l: Loader, chunks: seq<seq<byte>>, text: string)
    requires Prints(c, l, chunks, text) && |Flatten(chunks)| >= c.page
    ensures var image, end, r := Flatten(chunks), RoundUp(|Flatten(chunks)|, c.page), Run(c, l, text);
            && end <= |l.m.flash|
            && r.m.flash == image + Blank(end - |image|) + l.m.flash[end..]
            && BufferEmpty(r.m) && !r.p.run
  {
    hide Run, Project, Streamed, Offset, PageOf, File, RoundUp, Flatten;
    PrintedImage(c, l, chunks, text);
    RoundUpBound(|Flatten(chunks)|, c);
  }

  /** The image is in flash exactly when it fills a page, is empty or is blank. */
  lemma PrintedIff(c: Part, l: Loader, chunks: seq<seq<byte>>, text: string)
    requires Prints(c, l, chunks, text)
    ensures var image := Flatten(chunks);
            Run(c, l, text).m.flash[..|image|] == image
            <==> |image| >= c.page || image == Blank(|image|)
  {
    hide Run, Project, Prints, Offset, File, RoundUp, Flatten;
    var image := Flatten(chunks);
    assert |image| <= |l.m.flash| && ValidLoader(c, l) && c.boot <= |l.m.flash| && |image| <= c.boot
      by { PrintsBounds(c, l, chunks, text); }
    PrintedImage(c, l, chunks, text);
    if |image| >= c.page {
      PrintedFlash(c, l, chunks, text);
    } else {
      ShortStream(l.m, image, c);
    }
  }

  lemma PrintsBounds(c: Part, l: Loader, chunks: seq<seq<byte>>, text: string)
    requires Prints(c, l, chunks, text)
    ensures ValidLoader(c, l) && |Flatten(chunks)| <= c.boot <= |l.m.flash|
  {
  }

  /** A stream within page 0 leaves that page blank. */
  lemma ShortStream(m: Memory, image: seq<byte>, c: Part)
    requires ValidPart(c) && |m.buffer| == c.page && |image| < c.page && |image| <= c.boot <= |m.flash|
    ensures Streamed(m, 0, image).flash[..|image|] == Blank(|image|)
  {
    hide Offset;
    FirstPage(|image|, c.page);
    if |image| > 0 {
      RoundUpBound(|image|, c);
      FirstPage(|image|, c.page);
      assert !Aligned(|image|, c.page) by { PageStable(|image|, c.page); }
      assert image[..0] == [] && Put(m.flash, 0, []) == m.flash;
    }
  }

  // ----- packets -----

  /** The feed loop of main: packets are parsed whole, and the loop stops before
      the next packet once the run flag is down. */
  function Feed(c: Part, l: Loader, packets: seq<string>): (r: Loader)
    requires ValidLoader(c, l)
    ensures ValidLoader(c, r)
    decreases |packets|
  {
    if |packets| == 0 || !l.p.run then l else Feed(c, Run(c, l, packets[0]), packets[1..])
  }

  lemma {:induction false} RunStaysDownAll(c: Part, l: Loader, xs: string)
    requires ValidLoader(c, l) && !l.p.run
    ensures !Run(c, l, xs).p.run
    decreases |xs|
  {
    hide Step;
    if |xs| > 0 {
      RunStaysDown(c, l.p, xs[0]);
      RunStaysDownAll(c, Apply(l, Step(c, l.p, xs[0])), xs[1..]);
    }
  }

  lemma {:induction false} ProjectAppend(xs: string, ys: string)
    ensures Project(xs + ys) == Project(xs) + Project(ys)
    decreases |xs|
  {
    hide Kept;
    if |xs| == 0 {
      assert xs + ys == ys;
    } else {
      ProjectAppend(xs[1..], ys);
      var first := if Kept(xs[0]) then [xs[0]] else "";
      var zs := xs + ys;
      assert zs[0] == xs[0] && zs[1..] == xs[1..] + ys;
      assert Project(xs) == first + Project(xs[1..]);
      assert Project(zs) == first + Project(zs[1..]);
      assert first + (Project(xs[1..]) + Project(ys)) == first + Project(xs[1..]) + Project(ys);
    }
  }

  /** No proper prefix of the file takes the run flag down. */
  lemma RunUpUntilEnd(c: Part, l: Loader, m0: Memory, done: seq<byte>, chunks: seq<seq<byte>>)
    requires Tracking(c, l, m0, done)
    requires forall k | k in chunks :: 0 < |k| < 256 && |k| % 2 == 0
    requires |done| + |Flatten(chunks)| <= c.boot && |done| + |Flatten(chunks)| <= 0x10000
    ensures var text := File(|done|, chunks);
            ValidLoader(c, l) && |text| > 0 && Run(c, l, text[..|text| - 1]).p.run
  {
    hide Run, Tracking, Record, ValidLoader, DataRecords, Flatten;
    var text, eof := DataRecords(|done|, chunks), Record(0, EOF_RECORD, []);
    RecordsTracked(c, l, m0, done, chunks);
    EofOneShort(c, Run(c, l, text), m0, done + Flatten(chunks));
    RunAppend(c, l, text, eof[..|eof| - 1]);
    assert (text + eof)[..|text + eof| - 1] == text + eof[..|eof| - 1];
  }

  lemma EofOneShort(c: Part, l: Loader, m0: Memory, done: seq<byte>)
    requires Tracking(c, l, m0, done)
    ensures var text := Record(0, EOF_RECORD, []);
            ValidLoader(c, l) && |text| > 0 && Run(c, l, text[..|text| - 1]).p.run
  {
    hide Run, Streamed, PageOf, Offset, Sum, Complement, HexBytes, Step, Apply, HexByte;
    var h := Header(0, 0, EOF_RECORD);
    var x := Complement(Sum(h + []));
    var start := l.(p := l.p.(checksum := 0, addr := l.p.base, readMSB := false, phase := ByteCount));
    assert h + [] == h;
    HexBytesAppend(h, [x]);
    OneByteText(x);
    var text, d := Record(0, EOF_RECORD, []), Digit((x / 16) as nat);
    assert text == ":" + HexBytes(h) + HexByte(x);
    assert text[..|text| - 1] == ":" + HexBytes(h) + [d] by { assert HexByte(x)[0] == d by { OneByteText(x); } }
    RunAppend(c, l, ":", HexBytes(h));
    RunAppend(c, l, ":" + HexBytes(h), [d]);
    RunSingle(c, l, ':');
    ColonStep(c, l);
    RunHex(c, start, h);
    ReadHeader(c, start, 0, 0, EOF_RECORD);
    var l1 := start.(p := AfterHeader(start.p, 0, 0, EOF_RECORD));
    RunSingle(c, l1, d);
    FirstDigit(c, l1.p, (x / 16) as nat);
    ExecNothing(l1, Step(c, l1.p, d).p);
  }

  lemma OneByteText(x: byte)
    ensures HexBytes([x]) == HexByte(x) && HexByte(x)[0] == Digit((x / 16) as nat)
  {
    assert [x][1..] == [] && HexByte(x) + HexBytes([]) == HexByte(x);
  }

  lemma RunSingle(c: Part, l: Loader, ch: char)
    requires ValidLoader(c, l)
    ensures Run(c, l, [ch]) == Apply(l, Step(c, l.p, ch))
  {
    hide Step, Apply;
    assert [ch][1..] == [];
  }

  /** The feed loop reads some number of whole packets: all of them, or up to
      the one that takes the run flag down. */
  lemma {:induction false} FeedReads(c: Part, l: Loader, packets: seq<string>) returns (j: nat)
    requires ValidLoader(c, l)
    ensures j <= |packets| && Feed(c, l, packets) == Run(c, l, Flatten(packets[..j]))
    ensures j < |packets| ==> !Feed(c, l, packets).p.run
    decreases |packets|
  {
    hide Step, Apply;
    if |packets| == 0 || !l.p.run {
      j := 0;
      assert packets[..0] == [];
    } else {
      var i := FeedReads(c, Run(c, l, packets[0]), packets[1..]);
      j := i + 1;
      assert packets[..j][0] == packets[0] && packets[..j][1..] == packets[1..][..i];
      RunAppend(c, l, packets[0], Flatten(packets[1..][..i]));
    }
  }

  /** A prefix of the file that takes the run flag down is the whole file. */
  lemma DownMeansWhole(c: Part, l: Loader, chunks: seq<seq<byte>>, text: string, pre: string)
    requires Prints(c, l, chunks, text) && pre <= File(0, chunks)
    ensures !Run(c, l, pre).p.run ==> pre == File(0, chunks)
  {
    hide Run, Project, Tracking, File, Flatten;
    var file := File(0, chunks);
    FreshTracks(c, l);
    RunUpUntilEnd(c, l, l.m, [], chunks);
    if !Run(c, l, pre).p.run && |pre| < |file| {
      var more := file[|pre|..|file| - 1];
      assert file[..|file| - 1] == pre + more;
      RunAppend(c, l, pre, more);
      RunStaysDownAll(c, Run(c, l, pre), more);
    }
  }

  /** The image theorem for the feed loop: any split of the text into packets. */
  lemma FedImage(c: Part, l: Loader, chunks: seq<seq<byte>>, packets: seq<string>)
    requires Prints(c, l, chunks, Flatten(packets))
    ensures Feed(c, l, packets).m == Committed(l.m, Flatten(chunks)) && !Feed(c, l, packets).p.run
  {
    hide Run, Project, Committed, File, Flatten;
    var j := FeedReads(c, l, packets);
    if j == |packets| {
      assert packets[..j] == packets;
      PrintedImage(c, l, chunks, Flatten(packets));
    } else {
      var read, rest := Flatten(packets[..j]), Flatten(packets[j..]);
      FlattenSplit(packets, j);
      ProjectAppend(read, rest);
      NoiseFree(c, l, l, read);
      DownMeansWhole(c, l, chunks, Flatten(packets), Project(read));
      FreshTracks(c, l);
      PlaceFile(c, l, l.m, [], chunks);
      assert [] + Flatten(chunks) == Flatten(chunks);
    }
  }

  // ----- what every run keeps -----

  /** Running the loader is executing the operations it issues. */
  lemma {:induction false} RunIsTrace(c: Part, l: Loader, xs: string)
    requires ValidLoader(c, l)
    ensures Run(c, l, xs).m == ExecAll(l.m, Trace(c, l.p, xs))
    decreases |xs|
  {
    hide Step, Exec;
    if |xs| > 0 {
      var o := Step(c, l.p, xs[0]);
      RunIsTrace(c, Apply(l, o), xs[1..]);
      ExecAppend(l.m, o.ops, Trace(c, o.p, xs[1..]));
    }
  }

  lemma {:induction false} ExecAppend(m: Memory, xs: seq<Op>, ys: seq<Op>)
    requires ValidMemory(m)
    ensures ExecAll(m, xs + ys) == ExecAll(ExecAll(m, xs), ys)
    decreases |xs|
  {
    hide Exec;
    if |xs| == 0 {
      assert xs + ys == ys;
    } else {
      ExecAppend(Exec(m, xs[0]), xs[1..], ys);
      assert (xs + ys)[1..] == xs[1..] + ys;
    }
  }

  lemma StepFills(c: Part, p: Parser, ch: char, op: Op)
    requires ValidPart(c) && op in Step(c, p, ch).ops && op.FillOp?
    ensures op.a < c.boot
  {
    hide PageOf, Offset;
  }

  /** No stream makes the parser load a word at or above the boot section. */
  lemma {:induction false} FillsBelowBoot(c: Part, p: Parser, xs: string, op: Op)
    requires ValidPart(c) && op in Trace(c, p, xs) && op.FillOp?
    ensures op.a < c.boot
    decreases |xs|
  {
    hide Step;
    var o := Step(c, p, xs[0]);
    if op in o.ops {
      StepFills(c, p, xs[0], op);
    } else {
      FillsBelowBoot(c, o.p, xs[1..], op);
    }
  }

  predicate PageBlank(m: Memory, a: nat)
    requires ValidMemory(m)
  {
    var p := PageOf(a, |m.buffer|);
    p + |m.buffer| <= |m.flash| ==> m.flash[p..p + |m.buffer|] == Blank(|m.buffer|)
  }

  /** Every page write finds its page blank, so it stores the buffer exactly. */
  predicate WritesErased(m: Memory, ops: seq<Op>)
    requires ValidMemory(m)
    decreases |ops|
  {
    |ops| == 0 || ((ops[0].WriteOp? ==> PageBlank(m, ops[0].a)) && WritesErased(Exec(m, ops[0]), ops[1..]))
  }

  /** A dirty page has been erased. */
  predicate DirtyErased(l: Loader)
    requires ValidMemory(l.m)
  {
    l.p.dirty ==> PageBlank(l.m, l.p.pageStart)
  }

  lemma EraseBlanks(m: Memory, a: nat)
    requires ValidMemory(m)
    ensures PageBlank(Erase(m, a), a)
  {
    hide Offset;
    var p := PageOf(a, |m.buffer|);
    if p + |m.buffer| <= |m.flash| {
      PutRead(m.flash, p, Blank(|m.buffer|));
    }
  }

  /** How a step can touch the page state: not at all, by a flush, or by a word. */
  predicate StepKind(c: Part, p: Parser, o: Out, q: Parser, lo: byte, hi: byte)
    requires ValidPart(c)
  {
    && q.dirty == p.dirty && q.pageStart == p.pageStart
    && (|| (o.ops == [] && o.p.pageStart == p.pageStart && (o.p.dirty ==> p.dirty))
        || Agrees(o, Flush(c, q))
        || Agrees(o, DataWord(c, q, lo, hi)))
  }

  predicate Agrees(o: Out, k: Out) {
    o.ops == k.ops && o.p.pageStart == k.p.pageStart && o.p.dirty == k.p.dirty
  }

  lemma DataByteKind(c: Part, p: Parser)
    requires ValidPart(c)
    ensures StepKind(c, p, DataByte(c, p), p.(dataRem := ((p.dataRem as int + 255) % 256) as byte), p.prevData, p.data)
  {
    hide Flush, DataWord;
  }

  lemma TakeByteKind(c: Part, p: Parser, b: byte) returns (q: Parser, lo: byte, hi: byte)
    requires ValidPart(c)
    ensures StepKind(c, p, TakeByte(c, p, b), q, lo, hi)
  {
    hide Flush, DataWord, DataByte, Complement;
    q, lo, hi := p.(data := b, readMSB := false), p.prevData, b;
    if p.phase == ReadData {
      q := q.(checksum := ((q.checksum as int + b as int) % 256) as byte);
      DataByteKind(c, q);
      q := q.(dataRem := ((p.dataRem as int + 255) % 256) as byte);
    }
  }

  lemma StepKinds(c: Part, p: Parser, ch: char) returns (q: Parser, lo: byte, hi: byte)
    requires ValidPart(c)
    ensures StepKind(c, p, Step(c, p, ch), q, lo, hi)
  {
    hide Flush, DataWord, TakeByte, ShiftIn, HexToDecimal;
    q, lo, hi := p, 0, 0;
    if p.phase != WaitLine && ch != ':' && HexToDecimal(ch) >= 0 && p.readMSB {
      q, lo, hi := TakeByteKind(c, p, ShiftIn(p.data, HexToDecimal(ch)));
    }
  }

  lemma FlushErased(c: Part, p: Parser, m: Memory)
    requires ValidPart(c) && |m.buffer| == c.page && DirtyErased(Loader(p, m))
    ensures var o := Flush(c, p);
            WritesErased(m, o.ops) && DirtyErased(Loader(o.p, ExecAll(m, o.ops)))
  {
    hide PageOf, Offset, Write, PageBlank;
    var w := WriteOp(p.pageStart);
    ExecThree(m, w, w, w);
    assert [w][1..] == [];
  }

  lemma FillKeepsBlank(m: Memory, a: nat, lo: byte, hi: byte, p: nat)
    requires ValidMemory(m)
    ensures PageBlank(Fill(m, a, lo, hi), p) == PageBlank(m, p)
  {
  }

  /** Loading a word into an erased page, then flushing. */
  lemma FillFlushErased(c: Part, q: Parser, m: Memory, f: Op)
    requires ValidPart(c) && |m.buffer| == c.page && PageBlank(m, q.pageStart) && f.FillOp?
    ensures var o := Flush(c, q);
            WritesErased(m, [f] + o.ops) && DirtyErased(Loader(o.p, ExecAll(m, [f] + o.ops)))
  {
    hide PageOf, Offset, Fill, PageBlank, Flush, ExecAll, WritesErased;
    FillKeepsBlank(m, f.a, f.lo, f.hi, q.pageStart);
    FlushErased(c, q, Exec(m, f));
    PrefixErased(m, f, Flush(c, q).ops);
  }

  lemma DataWordErased(c: Part, p: Parser, m: Memory, lo: byte, hi: byte)
    requires ValidPart(c) && |m.buffer| == c.page && DirtyErased(Loader(p, m))
    ensures var o := DataWord(c, p, lo, hi);
            WritesErased(m, o.ops) && DirtyErased(Loader(o.p, ExecAll(m, o.ops)))
  {
    hide PageOf, Offset, Erase, PageBlank, Flush, ExecAll, WritesErased;
    var q := p.(dirty := true, addr := p.addr + 2);
    var tail, f, e := Flush(c, q).ops, FillOp(p.addr, lo, hi), EraseOp(p.pageStart);
    if p.dirty {
      assert [] + [f] + tail == [f] + tail;
      FillFlushErased(c, q, m, f);
    } else {
      EraseBlanks(m, p.pageStart);
      FillFlushErased(c, q, Exec(m, e), f);
      PrefixErased(m, e, [f] + tail);
      assert [e] + [f] + tail == [e] + ([f] + tail);
    }
  }

  lemma PrefixErased(m: Memory, op: Op, tail: seq<Op>)
    requires ValidMemory(m) && !op.WriteOp?
    ensures WritesErased(m, [op] + tail) == WritesErased(Exec(m, op), tail)
    ensures ExecAll(m, [op] + tail) == ExecAll(Exec(m, op), tail)
  {
    hide Exec;
    assert ([op] + tail)[1..] == tail;
  }

  lemma StepErased(c: Part, l: Loader, ch: char)
    requires ValidLoader(c, l) && DirtyErased(l)
    ensures var o := Step(c, l.p, ch);
            WritesErased(l.m, o.ops) && DirtyErased(Apply(l, o))
  {
    hide Step, PageOf, Offset, PageBlank, Flush, DataWord;
    var q, lo, hi := StepKinds(c, l.p, ch);
    FlushErased(c, q, l.m);
    DataWordErased(c, q, l.m, lo, hi);
  }

  lemma {:induction false} WritesErasedAppend(m: Memory, xs: seq<Op>, ys: seq<Op>)
    requires ValidMemory(m)
    ensures WritesErased(m, xs + ys) == (WritesErased(m, xs) && WritesErased(ExecAll(m, xs), ys))
    decreases |xs|
  {
    hide Exec, PageBlank;
    if |xs| == 0 {
      assert xs + ys == ys;
    } else {
      WritesErasedAppend(Exec(m, xs[0]), xs[1..], ys);
      assert (xs + ys)[1..] == xs[1..] + ys;
    }
  }

  /** Whatever the host sends, the parser only ever writes pages it has erased. */
  lemma {:induction false} EveryRunErasesFirst(c: Part, l: Loader, xs: string)
    requires ValidLoader(c, l) && DirtyErased(l)
    ensures WritesErased(l.m, Trace(c, l.p, xs)) && DirtyErased(Run(c, l, xs))
    decreases |xs|
  {
    hide Step, DirtyErased, WritesErased;
    if |xs| == 0 {
      assert WritesErased(l.m, []) by { NothingErased(l.m); }
    } else {
      var o := Step(c, l.p, xs[0]);
      StepErased(c, l, xs[0]);
      EveryRunErasesFirst(c, Apply(l, o), xs[1..]);
      WritesErasedAppend(l.m, o.ops, Trace(c, o.p, xs[1..]));
    }
  }

  lemma NothingErased(m: Memory)
    requires ValidMemory(m)
    ensures WritesErased(m, [])
  {
  }
}
