/** The programming loop of the DFU bootloader: words from packets into pages that
    are erased one ahead. */
module DfuLoop {
  import opened Spm
  import opened Chunks
  import opened Dfu
  import opened Endpoints

  // ----- the programming loop -----

  /** Packets carry whole words and none is empty. */
  predicate WholeWords(q: Queue) {
    |q.bank| % 2 == 0 && forall p | p in q.pending :: |p| > 0 && |p| % 2 == 0
  }

  /** Streaming memory with the page of the next word already erased, as the
      loop keeps it while words remain. */
  function Opened(m: Memory, base: nat, x: seq<byte>): (r: Memory)
    requires ValidMemory(m)
    ensures |r.buffer| == |m.buffer| && |r.flash| == |m.flash|
  {
    var s := Streamed(m, base, x);
    if Aligned(|x|, |m.buffer|) then Erase(s, base + |x|) else s
  }

  /** The cursor after the bytes x, with more to come. */
  predicate AtWord(k: Cursor, m: Memory, base: nat, x: seq<byte>)
    requires ValidMemory(m)
  {
    && Aligned(base, |m.buffer|) && |x| % 2 == 0
    && k.m == Opened(m, base, x) && k.addr == base + |x|
    && k.pageStart == base + PageOf(|x|, |m.buffer|) && 2 * k.inPage == Offset(|x|, |m.buffer|)
  }

  /** Loading the next word continues the stream up to the page write. */
  lemma OpenedFill(m: Memory, base: nat, x: seq<byte>, lo: byte, hi: byte)
    requires ValidMemory(m) && Aligned(base, |m.buffer|) && |x| % 2 == 0 && base + |x| + 2 <= |m.flash|
    ensures var f := Fill(Opened(m, base, x), base + |x|, lo, hi);
            var last := Offset(|x|, |m.buffer|) + 2 == |m.buffer|;
            Streamed(m, base, x + [lo, hi]) == if last then Write(f, base + |x|) else f
  {
    hide Streamed, Erase, Fill, Write, Offset;
    var page, n := |m.buffer|, |x|;
    StreamedWord(m, base, x, lo, hi);
    OffsetShift(base, n, page);
    OffsetShift(base, n + 2, page);
    OffsetNext(n, page);
  }

  lemma TwoFromBank(bank: seq<byte>)
    requires |bank| > 0 && |bank| % 2 == 0
    ensures |bank| >= 2 && Head(bank) == bank[0] && Head(Tail(bank)) == bank[1] && Tail(Tail(bank)) == bank[2..]
  {
  }

  /** A word that is not the last: the loop goes on with the next page open. */
  lemma NextWord(k: Cursor, m: Memory, base: nat, x: seq<byte>, left: nat)
    requires ValidMemory(m) && AtWord(k, m, base, x) && base + |x| + 2 <= |m.flash| && left > 0
    requires |k.q.bank| > 0 && |k.q.bank| % 2 == 0
    ensures |k.q.bank| >= 2 && AtWord(ProgramWord(k, left), m, base, x + k.q.bank[..2])
    ensures ProgramWord(k, left).q == Queue(k.q.bank[2..], k.q.pending)
  {
    hide Streamed, Erase, Fill, Write, Offset;
    TwoFromBank(k.q.bank);
    var page, n, lo, hi := |m.buffer|, |x|, k.q.bank[0], k.q.bank[1];
    assert k.q.bank[..2] == [lo, hi];
    OpenedFill(m, base, x, lo, hi);
    OffsetNext(n, page);
    OffsetShift(base, n, page);
    SamePage(Fill(k.m, k.addr, lo, hi), base + n, k.pageStart);
  }

  /** The last word: its page is written and nothing more is erased. */
  lemma LastWord(k: Cursor, m: Memory, base: nat, x: seq<byte>)
    requires ValidMemory(m) && AtWord(k, m, base, x)
    requires base + RoundUp(|x| + 2, |m.buffer|) <= |m.flash|
    requires |k.q.bank| > 0 && |k.q.bank| % 2 == 0
    ensures |k.q.bank| >= 2
    ensures ProgramWord(k, 0).m
            == Memory(Programmed(m.flash, |m.buffer|, base, x + k.q.bank[..2]), Blank(|m.buffer|))
  {
    hide Streamed, Erase, Fill, Write, Offset, Programmed, RoundUp, PageOf;
    TwoFromBank(k.q.bank);
    var page, n, lo, hi := |m.buffer|, |x|, k.q.bank[0], k.q.bank[1];
    assert k.q.bank[..2] == [lo, hi];
    RoundUpGrows(n + 2, page);
    OpenedFill(m, base, x, lo, hi);
    LastPageWritten(Fill(k.m, k.addr, lo, hi), m, base, x + [lo, hi]);
  }

  /** Writing the page of the last word ends the stream. */
  lemma LastPageWritten(f: Memory, m: Memory, base: nat, x: seq<byte>)
    requires ValidMemory(m) && Aligned(base, |m.buffer|) && |x| % 2 == 0 && |x| >= 2 && |f.buffer| == |m.buffer|
    requires base + RoundUp(|x|, |m.buffer|) <= |m.flash|
    requires Streamed(m, base, x)
             == if Offset(|x| - 2, |m.buffer|) + 2 == |m.buffer| then Write(f, base + |x| - 2) else f
    ensures Write(f, base + PageOf(|x| - 2, |m.buffer|))
            == Memory(Programmed(m.flash, |m.buffer|, base, x), Blank(|m.buffer|))
  {
    hide Streamed, Write, Erase, Offset, Programmed, RoundUp, PageOf;
    var page, n := |m.buffer|, |x| - 2;
    OffsetNext(n, page);
    StreamedFlushed(m, base, x);
    if Offset(n, page) + 2 < page {
      PageOfNext(base, n, page);
      SamePage(f, base + n + 2, base + PageOf(n, page));
    } else {
      OffsetShift(base, n, page);
      SamePage(f, base + n, base + PageOf(n, page));
    }
  }

  lemma PageOfNext(base: nat, n: nat, page: nat)
    requires ValidPage(page) && Aligned(base, page) && n % 2 == 0 && Offset(n, page) + 2 < page
    ensures PageOf(base + n + 2, page) == base + PageOf(n, page)
    ensures Offset(n + 2, page) != 0
  {
    hide Offset;
    OffsetNext(n, page);
    OffsetShift(base, n + 2, page);
  }

  lemma AdvanceSupply(q: Queue)
    requires WholeWords(q) && |q.bank| == 0 && |q.pending| > 0
    ensures WholeWords(Advance(q)) && Supply(Advance(q)) == Supply(q) && |Advance(q).bank| > 0
  {
    assert q.pending[0] in q.pending;
    assert forall p | p in q.pending[1..] :: p in q.pending;
  }

  lemma RoundUpGrows(n: nat, page: nat)
    requires ValidPage(page)
    ensures n <= RoundUp(n, page)
  {
  }

  /** The loop programs exactly the bytes that come, from the page-aligned base
      on: the tail of the last page blank, other pages untouched, every page
      erased before it is written, the buffer empty at the end. */
  lemma {:induction false} LoopPrograms(k: Cursor, m: Memory, base: nat, x: seq<byte>, words: nat)
    requires ValidMemory(m) && AtWord(k, m, base, x) && WholeWords(k.q)
    requires 0 < words && 2 * words <= |Supply(k.q)| && base + RoundUp(|x| + 2 * words, |m.buffer|) <= |m.flash|
    ensures var o := ProgramWords(k, words);
            && o.complete
            && o.k.m == Memory(Programmed(m.flash, |m.buffer|, base, x + Supply(k.q)[..2 * words]), Blank(|m.buffer|))
    decreases words
  {
    hide AtWord, ProgramWord, ProgramWords, Programmed, RoundUp, Opened, Flatten;
    assert |k.m.buffer| == |m.buffer| by { AtWordSizes(k, m, base, x); }
    var ready := if |k.q.bank| == 0 then k.(q := Advance(k.q)) else k;
    var two := WordReady(k);
    var all := Supply(k.q);
    AtWordQueue(k, ready, m, base, x);
    RoundUpGrows(|x| + 2 * words, |m.buffer|);
    ProgramWordsStep(k, words);
    if words == 1 {
      LastWord(ready, m, base, x);
      ProgramWordsEnd(ProgramWord(ready, 0));
    } else {
      NextWord(ready, m, base, x, words - 1);
      var next := ProgramWord(ready, words - 1);
      assert |x + two| + 2 * (words - 1) == |x| + 2 * words;
      LoopPrograms(next, m, base, x + two, words - 1);
      assert x + two + all[2..][..2 * (words - 1)] == x + all[..2 * words];
    }
  }

  /** The bank the loop reads its next word from. */
  lemma WordReady(k: Cursor) returns (two: seq<byte>)
    requires WholeWords(k.q) && |Supply(k.q)| >= 2
    ensures |k.q.bank| == 0 ==> |k.q.pending| > 0
    ensures var q := if |k.q.bank| == 0 then Advance(k.q) else k.q;
            && |q.bank| >= 2 && |q.bank| % 2 == 0 && two == q.bank[..2] == Supply(k.q)[..2]
            && WholeWords(Queue(q.bank[2..], q.pending)) && Supply(Queue(q.bank[2..], q.pending)) == Supply(k.q)[2..]
  {
    if |k.q.bank| == 0 {
      AdvanceSupply(k.q);
    }
    var q := if |k.q.bank| == 0 then Advance(k.q) else k.q;
    two := q.bank[..2];
    assert Supply(k.q) == q.bank + Flatten(q.pending);
  }

  lemma AtWordSizes(k: Cursor, m: Memory, base: nat, x: seq<byte>)
    requires ValidMemory(m) && AtWord(k, m, base, x)
    ensures |k.m.buffer| == |m.buffer|
  {
  }

  lemma AtWordQueue(k: Cursor, j: Cursor, m: Memory, base: nat, x: seq<byte>)
    requires ValidMemory(m) && AtWord(k, m, base, x) && j == k.(q := j.q)
    ensures AtWord(j, m, base, x)
  {
  }

  // ----- over a stale page buffer -----

  /** Flash after a range is programmed from a buffer that already holds something:
      a range of less than a page leaves it behind its data. */
  function Ended(m: Memory, base: nat, data: seq<byte>): (flash: seq<byte>)
    requires ValidMemory(m)
    ensures |flash| == |m.flash|
  {
    if |data| < |m.buffer| then Put(m.flash, base, data + m.buffer[|data|..])
    else Programmed(m.flash, |m.buffer|, base, data)
  }

  /** The cursor in the first page, after the bytes x. */
  predicate InFirst(k: Cursor, m: Memory, base: nat, x: seq<byte>)
    requires ValidMemory(m)
  {
    && Aligned(base, |m.buffer|) && |x| % 2 == 0 && |x| < |m.buffer|
    && k.m == Filled(Erase(m, base), base, x, |x| / 2) && k.addr == base + |x|
    && k.pageStart == base && 2 * k.inPage == |x|
  }

  lemma FilledWord(m: Memory, base: nat, x: seq<byte>, lo: byte, hi: byte)
    requires ValidMemory(m) && |x| % 2 == 0
    ensures Fill(Filled(m, base, x, |x| / 2), base + |x|, lo, hi) == Filled(m, base, x + [lo, hi], |x + [lo, hi]| / 2)
  {
    hide Fill;
    var n := |x| / 2;
    assert 2 * n == |x| && x + [lo, hi] == x + [lo] + [hi];
    FilledPrefix(m, base, x, lo, n);
    FilledNext(m, base, x + [lo], hi, n);
  }

  /** A last word within the first page writes it as it stands. */
  lemma EndsInFirst(m: Memory, base: nat, x: seq<byte>)
    requires ValidMemory(m) && Aligned(base, |m.buffer|) && base + |m.buffer| <= |m.flash|
    requires 0 < |x| <= |m.buffer| && |x| % 2 == 0
    ensures Write(Filled(Erase(m, base), base, x, |x| / 2), base) == Memory(Ended(m, base, x), Blank(|m.buffer|))
  {
    hide Put, Filled, Erase, Write, Offset;
    RewrittenExact(m, base, x);
    if |x| == |m.buffer| {
      WholeFirst(m, base, x);
      assert x + m.buffer[|x|..] == x;
    }
  }

  lemma WholeFirst(m: Memory, base: nat, x: seq<byte>)
    requires ValidMemory(m) && |x| == |m.buffer|
    ensures Programmed(m.flash, |m.buffer|, base, x) == Put(m.flash, base, x)
    ensures Streamed(m, base, x) == Memory(Put(m.flash, base, x), Blank(|m.buffer|))
  {
    hide Put, Offset;
    WholePage(|x|);
    assert x + Blank(0) == x;
    StreamedWhole(m, base, x);
  }

  /** A full first page is left as if the buffer had been empty. */
  lemma FirstDone(k: Cursor, m: Memory, base: nat, x: seq<byte>)
    requires ValidMemory(m) && Aligned(base, |m.buffer|) && base + |m.buffer| <= |m.flash| && |x| == |m.buffer|
    requires k.m == Erase(Write(Filled(Erase(m, base), base, x, |x| / 2), base), base + |x|)
    requires k.addr == base + |x| && k.pageStart == base + |x| && k.inPage == 0
    ensures AtWord(k, m.(buffer := Blank(|m.buffer|)), base, x)
  {
    hide Put, Filled, Erase, Write, Offset, Streamed, Programmed;
    EndsInFirst(m, base, x);
    WholeFirst(m, base, x);
    WholeFirst(m.(buffer := Blank(|m.buffer|)), base, x);
    WholePage(|x|);
  }

  /** The loop from the first page on, whatever the buffer held. */
  lemma {:induction false} FirstPageLoop(k: Cursor, m: Memory, base: nat, x: seq<byte>, words: nat)
    requires ValidMemory(m) && InFirst(k, m, base, x) && WholeWords(k.q)
    requires 0 < words && 2 * words <= |Supply(k.q)| && base + RoundUp(|x| + 2 * words, |m.buffer|) <= |m.flash|
    ensures var o := ProgramWords(k, words);
            o.complete && o.k.m == Memory(Ended(m, base, x + Supply(k.q)[..2 * words]), Blank(|m.buffer|))
    decreases words
  {
    hide ProgramWord, ProgramWords, Programmed, RoundUp, Flatten, Filled, Erase, Write, Ended, Aligned, AtWord, Put, InFirst;
    FirstSizes(k, m, base, x);
    ProgramWordsStep(k, words);
    var ready := if |k.q.bank| == 0 then k.(q := Advance(k.q)) else k;
    var two := WordReady(k);
    var all, next := Supply(k.q), ProgramWord(ready, words - 1);
    FirstPageFits(|x| + 2 * words, |m.buffer|);
    FirstQueue(k, ready, m, base, x);
    FirstWord(ready, m, base, x, words - 1);
    if words == 1 {
      EndsInFirst(m, base, x + two);
      assert all[..2] == two;
      ProgramWordsEnd(next);
    } else {
      assert x + two + all[2..][..2 * (words - 1)] == x + all[..2 * words];
      if |x| + 2 < |m.buffer| {
        FirstPageLoop(next, m, base, x + two, words - 1);
      } else {
        var m0 := m.(buffer := Blank(|m.buffer|));
        FirstDone(next, m, base, x + two);
        LoopPrograms(next, m0, base, x + two, words - 1);
        EndedLong(m, base, x + all[..2 * words]);
      }
    }
  }

  lemma FirstSizes(k: Cursor, m: Memory, base: nat, x: seq<byte>)
    requires ValidMemory(m) && InFirst(k, m, base, x)
    ensures Aligned(base, |m.buffer|) && |x| % 2 == 0 && |x| + 2 <= |m.buffer| == |k.m.buffer|
  {
  }

  lemma FirstQueue(k: Cursor, j: Cursor, m: Memory, base: nat, x: seq<byte>)
    requires ValidMemory(m) && InFirst(k, m, base, x) && j == k.(q := j.q)
    ensures InFirst(j, m, base, x)
  {
  }

  lemma EndedLong(m: Memory, base: nat, data: seq<byte>)
    requires ValidMemory(m) && |data| >= |m.buffer|
    ensures Ended(m, base, data) == Programmed(m.flash, |m.buffer|, base, data)
  {
  }

  lemma FirstPageFits(n: nat, page: nat)
    requires ValidPage(page) && n > 0
    ensures page <= RoundUp(n, page)
  {
    if n < page {
      assert !Aligned(n, page);
    }
  }

  /** One word of the first page. */
  lemma FirstWord(k: Cursor, m: Memory, base: nat, x: seq<byte>, left: nat)
    requires ValidMemory(m) && InFirst(k, m, base, x) && |k.q.bank| >= 2
    ensures var x', next := x + k.q.bank[..2], ProgramWord(k, left);
            && next.q == Queue(k.q.bank[2..], k.q.pending)
            && (left == 0 ==> next.m == Write(Filled(Erase(m, base), base, x', |x'| / 2), base))
            && (left > 0 && |x'| < |m.buffer| ==> InFirst(next, m, base, x'))
            && (left > 0 && |x'| == |m.buffer| ==>
                  && next.m == Erase(Write(Filled(Erase(m, base), base, x', |x'| / 2), base), base + |x'|)
                  && next.addr == base + |x'| && next.pageStart == base + |x'| && next.inPage == 0)
  {
    hide Filled, Erase, Write, Fill, Offset;
    var lo, hi := k.q.bank[0], k.q.bank[1];
    assert k.q.bank[..2] == [lo, hi] && Tail(Tail(k.q.bank)) == k.q.bank[2..];
    FilledWord(Erase(m, base), base, x, lo, hi);
  }
}
