/** Self-programming memory of the AVR part, shared by every bootloader: the
    flash array, the one-page temporary buffer that SPM fills word by word, and
    the three operations the bootloaders issue. Programming can only clear
    bits, so "the page was erased before it was written" is something each
    bootloader has to earn. */
module Spm {
  newtype byte = x: int | 0 <= x < 256

  const BLANK: byte := 0xFF

  function Word(hi: byte, lo: byte): (w: nat)
    ensures w < 65536
  {
    hi as nat * 256 + lo as nat
  }

  /** SPM_PAGESIZE: any even number of bytes (128 and 256 on the USB AVRs). */
  predicate ValidPage(page: int) {
    page >= 2 && page % 2 == 0
  }

  // ----- addresses within pages -----

  /** Offset of address a within its page: the remainder of a by the page size. */
  function Offset(a: nat, page: nat): (o: nat)
    requires ValidPage(page)
    ensures o < page && o <= a
  {
    if a < page then a else Offset(a - page, page)
  }

  lemma {:induction false} OffsetIsRemainder(a: nat, page: nat)
    requires ValidPage(page)
    ensures Offset(a, page) == a % page
  {
    if a < page {
      RemainderUnique(a, page, 0, a);
    } else {
      var b := a - page;
      OffsetIsRemainder(b, page);
      RemainderUnique(a, page, b / page + 1, b % page);
    }
  }

  lemma RemainderUnique(a: nat, d: nat, q: nat, r: nat)
    requires d > 0 && r < d && a == d * q + r
    ensures a % d == r
  {
    var q' := a / d;
    assert a == d * q' + a % d;
    if q > q' {
      MulGrows(d, q' + 1, q);
    } else if q < q' {
      MulGrows(d, q + 1, q');
    }
  }

  lemma MulGrows(d: nat, x: nat, y: nat)
    requires x <= y
    ensures d * x <= d * y
  {
    assert d * y == d * x + d * (y - x);
  }

  predicate Aligned(a: nat, page: nat)
    requires ValidPage(page)
  {
    Offset(a, page) == 0
  }

  /** Start address of the page holding address a. */
  function PageOf(a: nat, page: nat): (p: nat)
    requires ValidPage(page)
    ensures p <= a < p + page && Aligned(p, page)
  {
    PageAligned(a, page);
    a - Offset(a, page)
  }

  lemma PageAligned(a: nat, page: nat)
    requires ValidPage(page)
    ensures Aligned(a - Offset(a, page), page)
  {
  }

  lemma {:induction false} OffsetShift(base: nat, k: nat, page: nat)
    requires ValidPage(page) && Aligned(base, page)
    ensures Offset(base + k, page) == Offset(k, page)
    ensures PageOf(base + k, page) == base + PageOf(k, page)
  {
    if base >= page {
      OffsetShift(base - page, k, page);
    }
  }

  lemma {:induction false} OffsetNext(n: nat, page: nat)
    requires ValidPage(page) && n % 2 == 0
    ensures Offset(n, page) % 2 == 0
    ensures Offset(n, page) + 2 <= page
    ensures Offset(n + 2, page) == if Offset(n, page) + 2 < page then Offset(n, page) + 2 else 0
  {
    if n >= page {
      OffsetNext(n - page, page);
    }
  }

  lemma PageStable(a: nat, page: nat)
    requires ValidPage(page)
    ensures PageOf(PageOf(a, page), page) == PageOf(a, page)
    ensures Aligned(a, page) ==> PageOf(a, page) == a
  {
  }

  /** The next word opens a new page exactly when it ends on a boundary. */
  lemma PageCrossing(a: nat, page: nat)
    requires ValidPage(page) && a % 2 == 0
    ensures PageOf(a + 2, page) != PageOf(a, page) <==> Aligned(a + 2, page)
  {
    OffsetNext(a, page);
  }

  lemma WholePage(page: nat)
    requires ValidPage(page)
    ensures Offset(page, page) == 0
  {
    assert Offset(page, page) == Offset(0, page);
  }

  lemma AlignedZero(page: nat)
    requires ValidPage(page)
    ensures Aligned(0, page)
  {
  }

  /** First page boundary at or above n. */
  function RoundUp(n: nat, page: nat): (r: nat)
    requires ValidPage(page)
    ensures n <= r < n + page
  {
    if Aligned(n, page) then n else PageOf(n, page) + page
  }

  lemma {:induction false} BoundaryAbove(n: nat, b: nat, page: nat)
    requires ValidPage(page) && n <= b && Aligned(b, page)
    ensures RoundUp(n, page) <= b
    decreases b
  {
    if b >= page {
      if n >= page {
        BoundaryAbove(n - page, b - page, page);
      }
    }
  }

  // ----- flash cells -----

  /** Bitwise conjunction. */
  function And(a: byte, b: byte): (r: byte)
    ensures r <= a
  {
    if a == 0 || b == 0 then 0
    else (if a % 2 == 1 && b % 2 == 1 then 1 else 0) + 2 * And(a / 2, b / 2)
  }

  /** Programming an erased cell stores the buffered value exactly. */
  lemma AndBlank(b: byte)
    ensures And(BLANK, b) == b
  {
    assert forall x: byte | x < 2 :: And(1, x) == x;
    assert forall x: byte | x < 4 :: And(3, x) == x;
    assert forall x: byte | x < 8 :: And(7, x) == x;
    assert forall x: byte | x < 16 :: And(15, x) == x;
    assert forall x: byte | x < 32 :: And(31, x) == x;
    assert forall x: byte | x < 64 :: And(63, x) == x;
    assert forall x: byte | x < 128 :: And(127, x) == x;
  }

  function AndAll(a: seq<byte>, b: seq<byte>): (r: seq<byte>)
    requires |a| == |b|
    ensures |r| == |a|
  {
    seq(|a|, k requires 0 <= k < |a| => And(a[k], b[k]))
  }

  function Blank(n: nat): (b: seq<byte>)
    ensures |b| == n && forall k | 0 <= k < n :: b[k] == BLANK
  {
    seq(n, _ => BLANK)
  }

  lemma AndBlankAll(b: seq<byte>)
    ensures AndAll(Blank(|b|), b) == b
  {
    forall k | 0 <= k < |b| ensures And(BLANK, b[k]) == b[k] { AndBlank(b[k]); }
  }

  /** `flash` with `data` stored from address p on; no effect past the end. */
  function Put(flash: seq<byte>, p: nat, data: seq<byte>): (r: seq<byte>)
    ensures |r| == |flash|
  {
    if p + |data| <= |flash| then flash[..p] + data + flash[p + |data|..] else flash
  }

  lemma PutOver(f: seq<byte>, p: nat, x: seq<byte>, y: seq<byte>)
    requires |x| == |y|
    ensures Put(Put(f, p, x), p, y) == Put(f, p, y)
  {
  }

  lemma PutAppend(f: seq<byte>, p: nat, x: seq<byte>, y: seq<byte>)
    requires p + |x| + |y| <= |f|
    ensures Put(Put(f, p, x), p + |x|, y) == Put(f, p, x + y)
  {
  }

  lemma PutRead(f: seq<byte>, p: nat, x: seq<byte>)
    requires p + |x| <= |f|
    ensures Put(f, p, x)[p..p + |x|] == x
  {
  }

  lemma PutNothing(f: seq<byte>, p: nat)
    requires p <= |f|
    ensures Put(f, p, []) == f
  {
  }

  lemma PutByte(f: seq<byte>, p: nat, x: seq<byte>, b: byte)
    requires p + |x| < |f|
    ensures Put(f, p, x)[p + |x| := b] == Put(f, p, x + [b])
  {
  }

  lemma PutThrice(f: seq<byte>, p: nat, x: seq<byte>, blank: seq<byte>, y: seq<byte>)
    requires p + |x| + |y| <= |f| && |blank| == |y|
    ensures Put(Put(Put(f, p, x), p + |x|, blank), p + |x|, y) == Put(f, p, x + y)
  {
    PutOver(Put(f, p, x), p + |x|, blank, y);
    PutAppend(f, p, x, y);
  }

  /** A read past the end of the memory returns an erased cell. */
  function Cell(mem: seq<byte>, a: nat): (b: byte) {
    if a < |mem| then mem[a] else BLANK
  }

  /** A write past the end of the memory has no effect. */
  function Poke(mem: seq<byte>, a: nat, b: byte): (r: seq<byte>)
    ensures |r| == |mem|
  {
    if a < |mem| then mem[a := b] else mem
  }

  /** n bytes from address a on. */
  function Cells(mem: seq<byte>, a: nat, n: nat): (bs: seq<byte>)
    ensures |bs| == n
  {
    seq(n, (k: nat) => Cell(mem, a + k))
  }

  // ----- the memory and its operations -----

  /** Flash contents and the temporary page buffer; the page size is the
      buffer's length. */
  datatype Memory = Memory(flash: seq<byte>, buffer: seq<byte>)

  predicate ValidMemory(m: Memory) {
    ValidPage(|m.buffer|)
  }

  predicate BufferEmpty(m: Memory) {
    m.buffer == Blank(|m.buffer|)
  }

  function EraseAt(m: Memory, p: nat): (r: Memory)
    ensures |r.flash| == |m.flash| && r.buffer == m.buffer
  {
    m.(flash := Put(m.flash, p, Blank(|m.buffer|)))
  }

  function WriteAt(m: Memory, p: nat): (r: Memory)
    ensures |r.flash| == |m.flash| && r.buffer == Blank(|m.buffer|)
  {
    if p + |m.buffer| <= |m.flash|
    then Memory(Put(m.flash, p, AndAll(m.flash[p..p + |m.buffer|], m.buffer)), Blank(|m.buffer|))
    else m.(buffer := Blank(|m.buffer|))
  }

  /** boot_page_erase: the page holding a reads 0xFF afterwards. */
  function Erase(m: Memory, a: nat): (r: Memory)
    requires ValidMemory(m)
    ensures |r.flash| == |m.flash| && r.buffer == m.buffer
  {
    EraseAt(m, PageOf(a, |m.buffer|))
  }

  /** boot_page_fill: loads one word into the temporary buffer; bit 0 of the
      address is ignored. */
  function Fill(m: Memory, a: nat, lo: byte, hi: byte): (r: Memory)
    requires ValidMemory(m)
    ensures r.flash == m.flash && |r.buffer| == |m.buffer|
  {
    var o := Offset(a, |m.buffer|);
    var off := if o % 2 == 0 then o else o - 1;
    m.(buffer := m.buffer[off := lo][off + 1 := hi])
  }

  /** boot_page_write: programs the buffer into the page holding a, clearing
      bits only, and empties the buffer. */
  function Write(m: Memory, a: nat): (r: Memory)
    requires ValidMemory(m)
    ensures |r.flash| == |m.flash| && r.buffer == Blank(|m.buffer|)
  {
    WriteAt(m, PageOf(a, |m.buffer|))
  }

  /** Erase and write only see the page of their address. */
  lemma SamePage(m: Memory, a: nat, b: nat)
    requires ValidMemory(m) && b == PageOf(a, |m.buffer|)
    ensures Erase(m, a) == Erase(m, b) && Write(m, a) == Write(m, b)
  {
    hide EraseAt, WriteAt;
    PageStable(a, |m.buffer|);
  }

  /** Writing an erased page stores exactly the buffer. */
  lemma ErasedWrite(m: Memory, p: nat)
    requires p + |m.buffer| <= |m.flash|
    requires m.flash[p..p + |m.buffer|] == Blank(|m.buffer|)
    ensures WriteAt(m, p) == Memory(Put(m.flash, p, m.buffer), Blank(|m.buffer|))
  {
    AndBlankAll(m.buffer);
  }

  datatype Op = EraseOp(a: nat) | FillOp(a: nat, lo: byte, hi: byte) | WriteOp(a: nat)

  function Exec(m: Memory, op: Op): (r: Memory)
    requires ValidMemory(m)
    ensures |r.flash| == |m.flash| && |r.buffer| == |m.buffer|
  {
    match op
    case EraseOp(a) => Erase(m, a)
    case FillOp(a, lo, hi) => Fill(m, a, lo, hi)
    case WriteOp(a) => Write(m, a)
  }

  function ExecAll(m: Memory, ops: seq<Op>): (r: Memory)
    requires ValidMemory(m)
    ensures |r.flash| == |m.flash| && |r.buffer| == |m.buffer|
    decreases |ops|
  {
    if |ops| == 0 then m else ExecAll(Exec(m, ops[0]), ops[1..])
  }

  // ----- filling one page -----

  /** Memory after filling the page buffer with the words of data from a on. */
  function Filled(m: Memory, a: nat, data: seq<byte>, n: nat): (r: Memory)
    requires ValidMemory(m) && 2 * n <= |data|
    ensures |r.buffer| == |m.buffer| && r.flash == m.flash
    decreases n
  {
    if n == 0 then m
    else Fill(Filled(m, a, data, n - 1), a + 2 * (n - 1), data[2 * n - 2], data[2 * n - 1])
  }

  lemma {:induction false} FilledBuffer(m: Memory, a: nat, data: seq<byte>, n: nat)
    requires ValidMemory(m) && Aligned(a, |m.buffer|) && |data| <= |m.buffer| && 2 * n <= |data|
    ensures Filled(m, a, data, n) == m.(buffer := data[..2 * n] + m.buffer[2 * n..])
    decreases n
  {
    hide Offset, Fill;
    if n > 0 {
      FilledBuffer(m, a, data, n - 1);
      OffsetShift(a, 2 * n - 2, |m.buffer|);
      SmallOffset(2 * n - 2, |m.buffer|);
      FillAt(Filled(m, a, data, n - 1), a + 2 * (n - 1), 2 * n - 2, data[2 * n - 2], data[2 * n - 1]);
      NextWord(m.buffer, data, 2 * n - 2);
    } else {
      assert data[..0] + m.buffer[0..] == m.buffer;
    }
  }

  lemma NextWord(buffer: seq<byte>, data: seq<byte>, k: nat)
    requires k + 2 <= |data| <= |buffer|
    ensures (data[..k] + buffer[k..])[k := data[k]][k + 1 := data[k + 1]] == data[..k + 2] + buffer[k + 2..]
  {
  }

  lemma FillAt(m: Memory, a: nat, off: nat, lo: byte, hi: byte)
    requires ValidMemory(m) && off == Offset(a, |m.buffer|) && off % 2 == 0
    ensures off + 2 <= |m.buffer|
    ensures Fill(m, a, lo, hi) == m.(buffer := m.buffer[off := lo][off + 1 := hi])
  {
  }

  lemma SmallOffset(k: nat, page: nat)
    requires ValidPage(page) && k < page
    ensures Offset(k, page) == k
  {
  }

  lemma {:induction false} FilledPrefix(m: Memory, a: nat, data: seq<byte>, x: byte, n: nat)
    requires ValidMemory(m) && 2 * n <= |data|
    ensures Filled(m, a, data + [x], n) == Filled(m, a, data, n)
    decreases n
  {
    hide Fill;
    if n > 0 {
      FilledPrefix(m, a, data, x, n - 1);
    }
  }

  lemma FilledNext(m: Memory, a: nat, data: seq<byte>, x: byte, n: nat)
    requires ValidMemory(m) && 2 * n <= |data|
    ensures Filled(m, a, data + [x], n) == Filled(m, a, data, n)
    ensures |data| == 2 * n + 1 ==>
              Filled(m, a, data + [x], n + 1) == Fill(Filled(m, a, data, n), a + 2 * n, data[2 * n], x)
  {
    hide Fill;
    FilledPrefix(m, a, data, x, n);
  }

  lemma FilledNothing(m: Memory, a: nat)
    requires ValidMemory(m)
    ensures Filled(m, a, [], 0) == m
  {
  }

  /** Erase, load and write: the page that starts at a. */
  function Rewritten(m: Memory, a: nat, data: seq<byte>): (r: Memory)
    requires ValidMemory(m)
    ensures |r.flash| == |m.flash| && r.buffer == Blank(|m.buffer|)
  {
    Write(Filled(Erase(m, a), a, data, |data| / 2), a)
  }

  /** A rewritten page holds exactly the loaded data followed by what the buffer
      held behind it. */
  lemma RewrittenExact(m: Memory, a: nat, data: seq<byte>)
    requires ValidMemory(m) && Aligned(a, |m.buffer|) && a + |m.buffer| <= |m.flash|
    requires |data| <= |m.buffer| && |data| % 2 == 0
    ensures Rewritten(m, a, data) == Memory(Put(m.flash, a, data + m.buffer[|data|..]), Blank(|m.buffer|))
  {
    hide Offset, Put, AndAll, WriteAt;
    var page, e := |m.buffer|, Erase(m, a);
    PageStable(a, page);
    FilledBuffer(e, a, data, |data| / 2);
    var f := e.(buffer := data + m.buffer[|data|..]);
    assert data[..|data|] == data;
    PutRead(m.flash, a, Blank(page));
    ErasedWrite(f, a);
    PutOver(m.flash, a, Blank(page), f.buffer);
  }

  // ----- filling a page from an address inside it -----

  /** Bit 0 of an SPM address is ignored. */
  function Even(a: nat): (e: nat)
    ensures e % 2 == 0 && e <= a <= e + 1
  {
    a / 2 * 2
  }

  /** `data` turned round so that it starts at index k. */
  function Rotated(data: seq<byte>, k: nat): (r: seq<byte>)
    requires k <= |data|
    ensures |r| == |data|
  {
    data[|data| - k..] + data[..|data| - k]
  }

  /** The buffer after the first j bytes of data from offset k on. */
  function Wrapped(buffer: seq<byte>, data: seq<byte>, k: nat, j: nat): (r: seq<byte>)
    requires k <= |buffer| == |data| && j <= |data|
    ensures |r| == |buffer|
  {
    seq(|data|, i requires 0 <= i < |data| => if Source(i, k, |data|) < j then data[Source(i, k, |data|)] else buffer[i])
  }

  /** The index of data that lands at index i of a page filled from k on. */
  function Source(i: nat, k: nat, page: nat): (d: nat)
    requires i < page && k <= page
    ensures d < page
  {
    if i >= k then i - k else i + page - k
  }

  lemma WrappedWord(buffer: seq<byte>, data: seq<byte>, k: nat, j: nat, off: nat)
    requires k < |buffer| == |data| && j + 2 <= |data| && k % 2 == 0 && j % 2 == 0 && |data| % 2 == 0
    requires off == if k + j < |data| then k + j else k + j - |data|
    ensures off + 2 <= |buffer|
    ensures Wrapped(buffer, data, k, j)[off := data[j]][off + 1 := data[j + 1]] == Wrapped(buffer, data, k, j + 2)
  {
    var n := |data|;
    assert off + 2 <= n;
    forall i | 0 <= i < n
      ensures Source(i, k, n) < j + 2 <==> Source(i, k, n) < j || i == off || i == off + 1
      ensures Source(off, k, n) == j && Source(off + 1, k, n) == j + 1
    {
    }
  }

  /** Where the words of a page go when it is loaded from address a on: offsets
      wrap round within the page. */
  lemma WordOffset(a: nat, j: nat, page: nat)
    requires ValidPage(page) && j < page && j % 2 == 0
    ensures var k := Even(Offset(a, page));
            k < page && Even(Offset(a + j, page)) == if k + j < page then k + j else k + j - page
  {
    hide Offset;
    var o := Offset(a, page);
    PageAligned(a, page);
    OffsetShift(a - o, o + j, page);
    WrapOnce(o + j, page);
  }

  lemma WrapOnce(x: nat, page: nat)
    requires ValidPage(page) && x < 2 * page
    ensures Offset(x, page) == if x < page then x else x - page
  {
    if x >= page {
      SmallOffset(x - page, page);
    }
  }

  lemma FillEven(m: Memory, a: nat, lo: byte, hi: byte)
    requires ValidMemory(m)
    ensures var off := Even(Offset(a, |m.buffer|));
            off + 2 <= |m.buffer| && Fill(m, a, lo, hi) == m.(buffer := m.buffer[off := lo][off + 1 := hi])
  {
    hide Offset;
  }

  lemma {:induction false} FilledWraps(m: Memory, a: nat, data: seq<byte>, n: nat)
    requires ValidMemory(m) && |data| == |m.buffer| && 2 * n <= |data|
    ensures Filled(m, a, data, n) == m.(buffer := Wrapped(m.buffer, data, Even(Offset(a, |data|)), 2 * n))
    decreases n
  {
    hide Offset, Fill, Wrapped, Even;
    var page := |data|;
    var k := Even(Offset(a, page));
    if n == 0 {
      WrappedNothing(m.buffer, data, k);
    } else {
      FilledWraps(m, a, data, n - 1);
      WordOffset(a, 2 * (n - 1), page);
      var off := Even(Offset(a + 2 * (n - 1), page));
      FillEven(Filled(m, a, data, n - 1), a + 2 * (n - 1), data[2 * n - 2], data[2 * n - 1]);
      WrappedWord(m.buffer, data, k, 2 * (n - 1), off);
    }
  }

  lemma WrappedNothing(buffer: seq<byte>, data: seq<byte>, k: nat)
    requires k <= |buffer| == |data|
    ensures Wrapped(buffer, data, k, 0) == buffer
    ensures Wrapped(buffer, data, k, |data|) == Rotated(data, k)
  {
  }

  /** A whole page loaded from any address stores the data turned round by the
      offset of that address. */
  lemma RewrittenWraps(m: Memory, a: nat, data: seq<byte>)
    requires ValidMemory(m) && |data| == |m.buffer| && PageOf(a, |m.buffer|) + |m.buffer| <= |m.flash|
    ensures var page := |m.buffer|;
            Rewritten(m, a, data)
            == Memory(Put(m.flash, PageOf(a, page), Rotated(data, Even(Offset(a, page)))), Blank(page))
  {
    hide Offset, Put, AndAll, WriteAt, Wrapped, Even, Rotated;
    var page, p := |m.buffer|, PageOf(a, |m.buffer|);
    var e, k := EraseAt(m, p), Even(Offset(a, page));
    FilledWraps(e, a, data, page / 2);
    WrappedNothing(m.buffer, data, k);
    var f := e.(buffer := Rotated(data, k));
    PutRead(m.flash, p, Blank(page));
    ErasedWrite(f, p);
    PutOver(m.flash, p, Blank(page), f.buffer);
  }

  // ----- streaming data into consecutive pages -----

  /** Memory reached from m after streaming `data` upwards from the page-aligned
      address base with each page erased at its first word and written at its
      last: complete pages are programmed, an unfinished page is erased and its
      data waits in the buffer. */
  function Streamed(m: Memory, base: nat, data: seq<byte>): (r: Memory)
    requires ValidMemory(m)
    ensures |r.flash| == |m.flash| && |r.buffer| == |m.buffer|
  {
    StreamedUpTo(m, base, data, PageOf(|data|, |m.buffer|))
  }

  function StreamedUpTo(m: Memory, base: nat, data: seq<byte>, done: nat): (r: Memory)
    requires done <= |data| <= done + |m.buffer|
    ensures |r.flash| == |m.flash| && |r.buffer| == |m.buffer|
  {
    var f := Put(m.flash, base, data[..done]);
    Memory(if done < |data| then Put(f, base + done, Blank(|m.buffer|)) else f,
           data[done..] + Blank(done + |m.buffer| - |data|))
  }

  /** Flash once `data` is stored from base on, the rest of its last page blank
      and every other page untouched. */
  function Programmed(flash: seq<byte>, page: nat, base: nat, data: seq<byte>): (r: seq<byte>)
    requires ValidPage(page)
    ensures |r| == |flash|
  {
    Put(flash, base, data + Blank(RoundUp(|data|, page) - |data|))
  }

  lemma ProgrammedCells(flash: seq<byte>, page: nat, base: nat, data: seq<byte>)
    requires ValidPage(page) && base + RoundUp(|data|, page) <= |flash|
    ensures Cells(Programmed(flash, page, base, data), base, |data|) == data
  {
    hide RoundUp;
    var padded := data + Blank(RoundUp(|data|, page) - |data|);
    var p := Put(flash, base, padded);
    forall k | 0 <= k < |data| ensures Cell(p, base + k) == data[k] {
      assert p[base + k] == padded[k];
    }
  }

  /** The one-word step every page writer repeats: erase at the first word of a
      page, load, write at the last word. */
  function StreamWord(m: Memory, a: nat, lo: byte, hi: byte): (r: Memory)
    requires ValidMemory(m)
  {
    var erased := if Aligned(a, |m.buffer|) then Erase(m, a) else m;
    var filled := Fill(erased, a, lo, hi);
    if Aligned(a + 2, |m.buffer|) then Write(filled, a) else filled
  }

  lemma StreamedNothing(m: Memory, base: nat)
    requires ValidMemory(m) && BufferEmpty(m) && base <= |m.flash|
    ensures Streamed(m, base, []) == m
  {
    PutNothing(m.flash, base);
  }

  /** Erase if the word opens its page p, then load the word. */
  function Loaded(s: Memory, p: nat, off: nat, lo: byte, hi: byte): (r: Memory)
    requires off + 2 <= |s.buffer|
    ensures |r.flash| == |s.flash| && |r.buffer| == |s.buffer|
  {
    var e := if off == 0 then EraseAt(s, p) else s;
    e.(buffer := s.buffer[off := lo][off + 1 := hi])
  }

  /** A word that does not complete its page only joins the buffer. */
  lemma StreamedInside(m: Memory, base: nat, data: seq<byte>, done: nat, off: nat, lo: byte, hi: byte)
    requires done + off == |data| && off + 2 < |m.buffer|
    ensures Loaded(StreamedUpTo(m, base, data, done), base + done, off, lo, hi)
            == StreamedUpTo(m, base, data + [lo, hi], done)
  {
    assert data[..done] == (data + [lo, hi])[..done];
    assert (data[done..] + Blank(|m.buffer| - off))[off := lo][off + 1 := hi]
           == (data + [lo, hi])[done..] + Blank(|m.buffer| - off - 2);
  }

  lemma LoadedLast(m: Memory, base: nat, data: seq<byte>, done: nat, off: nat, lo: byte, hi: byte)
    requires done + off == |data| && off + 2 == |m.buffer|
    ensures var f := Loaded(StreamedUpTo(m, base, data, done), base + done, off, lo, hi);
            && f.flash == Put(Put(m.flash, base, data[..done]), base + done, Blank(|m.buffer|))
            && f.buffer == data[done..] + [lo, hi]
  {
  }

  lemma StreamedWhole(m: Memory, base: nat, data: seq<byte>)
    ensures StreamedUpTo(m, base, data, |data|) == Memory(Put(m.flash, base, data), Blank(|m.buffer|))
  {
    assert data[..|data|] == data;
  }

  /** A word that completes its page programs it exactly and empties the buffer. */
  lemma StreamedLast(m: Memory, base: nat, data: seq<byte>, done: nat, off: nat, lo: byte, hi: byte)
    requires done + off == |data| && off + 2 == |m.buffer| && base + |data| + 2 <= |m.flash|
    ensures WriteAt(Loaded(StreamedUpTo(m, base, data, done), base + done, off, lo, hi), base + done)
            == StreamedUpTo(m, base, data + [lo, hi], |data| + 2)
  {
    hide *;
    var blank, x, y := Blank(|m.buffer|), data[..done], data[done..] + [lo, hi];
    var f := Loaded(StreamedUpTo(m, base, data, done), base + done, off, lo, hi);
    LoadedLast(m, base, data, done, off, lo, hi);
    PutRead(Put(m.flash, base, x), base + done, blank);
    ErasedWrite(f, base + done);
    PutThrice(m.flash, base, x, blank, y);
    StreamedWhole(m, base, data + [lo, hi]);
    assert x + y == data + [lo, hi];
  }

  /** The one-word step at stream position n, in terms of its page p and the
      offset within the page. */
  lemma StreamWordParts(s: Memory, base: nat, n: nat, p: nat, off: nat, lo: byte, hi: byte)
    requires ValidMemory(s) && Aligned(base, |s.buffer|) && n % 2 == 0
    requires off == Offset(n, |s.buffer|) && p == base + PageOf(n, |s.buffer|)
    ensures off + 2 <= |s.buffer|
    ensures StreamWord(s, base + n, lo, hi)
            == if off + 2 < |s.buffer| then Loaded(s, p, off, lo, hi) else WriteAt(Loaded(s, p, off, lo, hi), p)
  {
    hide Put, Blank, WriteAt, EraseAt, Offset, PageOf;
    OffsetShift(base, n, |s.buffer|);
    OffsetShift(base, n + 2, |s.buffer|);
    OffsetNext(n, |s.buffer|);
  }

  /** Streaming is closed under the one-word step. */
  lemma StreamedWord(m: Memory, base: nat, data: seq<byte>, lo: byte, hi: byte)
    requires ValidMemory(m) && base + |data| + 2 <= |m.flash|
    requires Aligned(base, |m.buffer|) && |data| % 2 == 0
    ensures StreamWord(Streamed(m, base, data), base + |data|, lo, hi) == Streamed(m, base, data + [lo, hi])
  {
    hide Put, Blank, WriteAt, EraseAt, StreamedUpTo, Loaded, StreamWord;
    var page, n, s := |m.buffer|, |data|, Streamed(m, base, data);
    var off, done := Offset(n, page), PageOf(n, page);
    StreamWordParts(s, base, n, base + done, off, lo, hi);
    OffsetNext(n, page);
    if off + 2 < page {
      StreamedInside(m, base, data, done, off, lo, hi);
    } else {
      StreamedLast(m, base, data, done, off, lo, hi);
    }
  }

  /** Streaming whole pages, or streaming a tail and then writing its page, ends
      with exactly the programmed image and an empty buffer. */
  lemma StreamedFlushed(m: Memory, base: nat, data: seq<byte>)
    requires ValidMemory(m) && Aligned(base, |m.buffer|) && base + RoundUp(|data|, |m.buffer|) <= |m.flash|
    ensures (if Aligned(|data|, |m.buffer|) then Streamed(m, base, data)
             else Write(Streamed(m, base, data), base + |data|))
            == Memory(Programmed(m.flash, |m.buffer|, base, data), Blank(|m.buffer|))
  {
    hide Put, WriteAt, EraseAt, AndAll, Offset, Blank;
    var page, n, s := |m.buffer|, |data|, Streamed(m, base, data);
    if Aligned(n, page) {
      StreamedWhole(m, base, data);
      assert data + Blank(0) == data;
    } else {
      OffsetShift(base, n, page);
      var done, blank := PageOf(n, page), Blank(page);
      var x, y := data[..done], data[done..] + Blank(done + page - n);
      PutRead(Put(m.flash, base, x), base + done, blank);
      ErasedWrite(s, base + done);
      PutThrice(m.flash, base, x, blank, y);
      assert x + y == data + Blank(done + page - n);
    }
  }
}
