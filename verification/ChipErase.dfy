/** Erasing the application section and checking that it is blank, as the DFU
    and CDC bootloaders do it: each page is erased and then written, which also
    programs whatever the page buffer still held. */
module ChipErase {
  import opened Spm
  import opened Device

  /** The first n pages erased and written in turn. */
  function ErasedPages(m: Memory, n: nat): (r: Memory)
    requires ValidMemory(m)
    ensures |r.flash| == |m.flash| && |r.buffer| == |m.buffer|
    decreases n
  {
    if n == 0 then m
    else
      var a := (n - 1) * |m.buffer|;
      var before := ErasedPages(m, n - 1);
      Write(Erase(before, a), a)
  }

  lemma {:induction false} PageMultiple(n: nat, page: nat)
    requires ValidPage(page)
    ensures Aligned(n * page, page) && PageOf(n * page, page) == n * page
  {
    hide Offset;
    if n == 0 {
      AlignedZero(page);
    } else {
      PageMultiple(n - 1, page);
      assert n * page == (n - 1) * page + page;
      OffsetShift((n - 1) * page, page, page);
      WholePage(page);
    }
  }

  lemma EraseWrite(m: Memory, p: nat)
    requires ValidMemory(m) && PageOf(p, |m.buffer|) == p && p + |m.buffer| <= |m.flash|
    ensures Write(Erase(m, p), p) == Memory(Put(m.flash, p, m.buffer), Blank(|m.buffer|))
  {
    hide Offset, PageOf, AndAll, WriteAt, Put;
    var e := EraseAt(m, p);
    PutRead(m.flash, p, Blank(|m.buffer|));
    ErasedWrite(e, p);
    PutOver(m.flash, p, Blank(|m.buffer|), m.buffer);
  }

  /** The pages come out blank, except that page 0 receives the old buffer. */
  lemma {:induction false} ErasedPagesExact(m: Memory, n: nat)
    requires ValidMemory(m) && 0 < n && n * |m.buffer| <= |m.flash|
    ensures ErasedPages(m, n)
            == Memory(Put(m.flash, 0, m.buffer + Blank((n - 1) * |m.buffer|)), Blank(|m.buffer|))
    decreases n
  {
    hide Offset, PageOf, Put, Write, Erase, Aligned;
    var page := |m.buffer|;
    if n == 1 {
      PageMultiple(0, page);
      EraseWrite(m, 0);
      assert m.buffer + Blank(0) == m.buffer;
      assert ErasedPages(m, 0) == m;
    } else {
      assert n * page == (n - 1) * page + page && (n - 1) * page == (n - 2) * page + page;
      ErasedPagesExact(m, n - 1);
      var before, p := ErasedPages(m, n - 1), (n - 1) * page;
      var x := m.buffer + Blank((n - 2) * page);
      PageMultiple(n - 1, page);
      EraseWrite(before, p);
      PutAppend(m.flash, 0, x, Blank(page));
      assert x + Blank(page) == m.buffer + Blank((n - 1) * page);
    }
  }

  /** Erasing leaves the application section blank exactly when the page buffer
      was empty, and never touches the rest of flash. */
  lemma EraseBlanksIff(m: Memory, n: nat)
    requires ValidMemory(m) && 0 < n && n * |m.buffer| <= |m.flash|
    ensures var end, r := n * |m.buffer|, ErasedPages(m, n);
            && (r.flash[..end] == Blank(end) <==> BufferEmpty(m))
            && r.flash[end..] == m.flash[end..] && BufferEmpty(r)
  {
    hide ErasedPages;
    var page, end := |m.buffer|, n * |m.buffer|;
    assert end == page + (n - 1) * page;
    ErasedPagesExact(m, n);
    var r := ErasedPages(m, n);
    assert r.flash[..end] == m.buffer + Blank((n - 1) * page);
    assert Blank(page) + Blank((n - 1) * page) == Blank(end);
    if r.flash[..end] == Blank(end) {
      assert forall k | 0 <= k < page :: m.buffer[k] == r.flash[..end][k];
    }
  }

  /** The erase loop. */
  method EraseApplication(chip: Chip, bootStart: nat, ghost n: nat)
    requires chip.Valid() && bootStart == n * |chip.mem.buffer|
    modifies chip`mem
    ensures chip.Valid() && chip.mem == ErasedPages(old(chip.mem), n)
  {
    hide Write, Erase;
    var currFlashAddress, page := 0, |chip.mem.buffer|;
    ghost var k := 0;
    while currFlashAddress < bootStart
      invariant 0 <= k <= n && currFlashAddress == k * page
      invariant chip.Valid() && |chip.mem.buffer| == page && chip.mem == ErasedPages(old(chip.mem), k)
      decreases n - k
    {
      PagesLeft(k, n, page);
      chip.PageErase(currFlashAddress);
      chip.PageWrite(currFlashAddress);
      currFlashAddress := currFlashAddress + page;
      k := k + 1;
    }
    PagesDone(k, n, page);
  }

  lemma PagesLeft(k: nat, n: nat, page: nat)
    requires page > 0 && k * page < n * page && k <= n
    ensures k < n && (k + 1) * page == k * page + page
  {
  }

  lemma PagesDone(k: nat, n: nat, page: nat)
    requires page > 0 && k <= n && k * page >= n * page
    ensures k == n
  {
    if k < n {
      MulGrows(page, k + 1, n);
    }
  }

  /** The blank check: the least application address that is not 0xFF, if any. */
  method BlankCheck(flash: seq<byte>, bootStart: nat) returns (found: bool, first: nat)
    requires bootStart <= |flash|
    ensures found <==> flash[..bootStart] != Blank(bootStart)
    ensures found ==> first < bootStart && flash[first] != BLANK && flash[..first] == Blank(first)
  {
    first := 0;
    while first < bootStart
      invariant 0 <= first <= bootStart && flash[..first] == Blank(first)
    {
      if flash[first] != BLANK {
        assert flash[..bootStart][first] != BLANK;
        return true, first;
      }
      first := first + 1;
    }
    return false, first;
  }

  /** A blank check after an erase from an empty buffer finds nothing. */
  lemma ErasedIsBlank(m: Memory, n: nat)
    requires ValidMemory(m) && BufferEmpty(m) && n * |m.buffer| <= |m.flash|
    ensures var end := n * |m.buffer|;
            ErasedPages(m, n).flash[..end] == Blank(end)
  {
    if n > 0 {
      EraseBlanksIff(m, n);
    }
  }
}
