/** Voice allocation of the MIDI tone generator: an age per slot, incremented
    while the table is scanned for the slot to reuse. */
module Midi {
  import opened Spm

  /** LRUAge and Pitch of a DDSNoteData; pitch 0 means the slot is free. */
  datatype Slot = Slot(age: byte, pitch: byte)

  function Older(age: byte): (r: byte) {
    if age == 255 then 0 else age + 1
  }

  /** The note-on scan from slot i with `lru` the best slot so far: the table
      with the ages it leaves, and the slot to use. */
  function Scan(s: seq<Slot>, i: nat, lru: nat): (r: (seq<Slot>, nat))
    requires i <= |s| && lru < |s|
    ensures |r.0| == |s| && r.1 < |s|
    decreases |s| - i
  {
    if i == |s| then (s, lru)
    else if s[i].pitch == 0 then (s, i)
    else Scan(s[i := s[i].(age := Older(s[i].age))], i + 1, if s[i].age >= s[lru].age then i else lru)
  }

  function NoteOn(s: seq<Slot>, pitch: byte): (r: seq<Slot>)
    requires |s| > 0
    ensures |r| == |s|
  {
    var scan := Scan(s, 0, 0);
    scan.0[scan.1 := Slot(0, pitch)]
  }

  function NoteOff(s: seq<Slot>, pitch: byte): (r: seq<Slot>)
    ensures |r| == |s|
  {
    seq(|s|, i requires 0 <= i < |s| => if s[i].pitch == pitch then s[i].(pitch := 0) else s[i])
  }

  // ----- the table updated in place -----

  class NoteTable {
    const slots: array<Slot>

    constructor (n: nat)
      ensures fresh(slots) && slots.Length == n && forall i | 0 <= i < n :: slots[i].pitch == 0
    {
      slots := new Slot[n](_ => Slot(0, 0));
    }

    method TurnOn(pitch: byte)
      requires slots.Length > 0
      modifies slots
      ensures slots[..] == NoteOn(old(slots[..]), pitch)
    {
      var lru, i := 0, 0;
      ghost var s0 := slots[..];
      while i < slots.Length
        invariant 0 <= i <= slots.Length && 0 <= lru < slots.Length
        invariant Scan(s0, 0, 0) == Scan(slots[..], i, lru)
      {
        ghost var before := slots[..];
        if slots[i].pitch == 0 {
          lru := i;
          break;
        } else if slots[i].age >= slots[lru].age {
          lru := i;
        }
        slots[i] := slots[i].(age := Older(slots[i].age));
        assert slots[..] == before[i := before[i].(age := Older(before[i].age))];
        i := i + 1;
      }
      slots[lru] := Slot(0, pitch);
    }

    method TurnOff(pitch: byte) returns (foundActiveNote: bool)
      modifies slots
      ensures slots[..] == NoteOff(old(slots[..]), pitch)
      ensures foundActiveNote <==> exists i | 0 <= i < slots.Length :: slots[i].pitch != 0
    {
      foundActiveNote := false;
      ghost var t := NoteOff(slots[..], pitch);
      for i := 0 to slots.Length
        invariant forall k | 0 <= k < i :: slots[k] == t[k]
        invariant forall k | i <= k < slots.Length :: slots[k] == old(slots[k])
        invariant foundActiveNote <==> exists k | 0 <= k < i :: t[k].pitch != 0
      {
        if slots[i].pitch == pitch {
          slots[i] := slots[i].(pitch := 0);
        } else if slots[i].pitch != 0 {
          foundActiveNote := true;
        }
        assert slots[i] == t[i];
      }
      assert slots[..] == t;
    }
  }

  // ----- runs of note-ons -----

  function PlayAll(s: seq<Slot>, notes: seq<byte>): (r: seq<Slot>)
    requires |s| > 0
    ensures |r| == |s|
    decreases |notes|
  {
    if |notes| == 0 then s else NoteOn(PlayAll(s, notes[..|notes| - 1]), notes[|notes| - 1])
  }

  predicate AllFree(s: seq<Slot>) {
    forall i | 0 <= i < |s| :: s[i].pitch == 0
  }

  /** The slot the note after the first n goes to, in a table of m slots. */
  function Head(n: nat, m: nat): (h: nat)
    requires m > 0
    ensures h < m
  {
    if n < m then n else Head(n - m, m)
  }

  lemma {:induction false} HeadNext(n: nat, m: nat)
    requires m > 0
    ensures Head(n + 1, m) == if Head(n, m) + 1 == m then 0 else Head(n, m) + 1
    ensures n < m ==> Head(n, m) == n
  {
    if n >= m {
      HeadNext(n - m, m);
    }
  }

  /** Age of slot k when the next note goes to slot h. */
  function AgeAt(k: nat, h: nat, m: nat): (a: nat)
    requires k < m && h < m
    ensures a < m
  {
    if k < h then h - 1 - k else h - 1 - k + m
  }

  /** Slot k holds the note that is AgeAt(k) notes old; slots not reached yet
      are free. */
  predicate Ring(s: seq<Slot>, notes: seq<byte>) {
    0 < |s| <= 255 && forall k | 0 <= k < |s| :: RingCell(s, notes, k)
  }

  predicate RingCell(s: seq<Slot>, notes: seq<byte>, k: nat)
    requires k < |s| <= 255
  {
    if |notes| <= k then s[k].pitch == 0
    else
      var a := AgeAt(k, Head(|notes|, |s|), |s|);
      a < |notes| && s[k] == Slot(a as byte, notes[|notes| - 1 - a])
  }

  /** A scan that meets no free slot from i on ages the rest and settles on the
      first slot of greatest age. */
  lemma {:induction false} ScanFull(s: seq<Slot>, i: nat, lru: nat, best: nat)
    requires i <= |s| && lru < |s| && (i > 0 ==> lru < i) && (i == 0 ==> lru == 0)
    requires forall k | i <= k < |s| :: s[k].pitch != 0 && s[k].age < 255
    requires best < |s| && (forall k | i <= k < |s| && k != best :: s[k].age < s[best].age)
    requires if best < i then lru == best && (forall k | i <= k < |s| :: s[k].age < s[lru].age)
             else i > 0 ==> s[lru].age <= s[best].age
    ensures Scan(s, i, lru) == (seq(|s|, k requires 0 <= k < |s| =>
                                  if k < i then s[k] else s[k].(age := Older(s[k].age))), best)
    decreases |s| - i
  {
    var r := seq(|s|, k requires 0 <= k < |s| => if k < i then s[k] else s[k].(age := Older(s[k].age)));
    if i == |s| {
      assert r == s;
    } else {
      var s', lru' := s[i := s[i].(age := Older(s[i].age))], if s[i].age >= s[lru].age then i else lru;
      ScanFull(s', i + 1, lru', best);
      assert r == seq(|s|, k requires 0 <= k < |s| => if k < i + 1 then s'[k] else s'[k].(age := Older(s'[k].age)));
    }
  }

  /** A scan stops at the first free slot, having aged those before it. */
  lemma {:induction false} ScanFree(s: seq<Slot>, i: nat, lru: nat, free: nat)
    requires i <= free < |s| && lru < |s| && s[free].pitch == 0
    requires forall k | i <= k < free :: s[k].pitch != 0
    ensures Scan(s, i, lru) == (seq(|s|, k requires 0 <= k < |s| =>
                                  if i <= k < free then s[k].(age := Older(s[k].age)) else s[k]), free)
    decreases |s| - i
  {
    var r := seq(|s|, k requires 0 <= k < |s| => if i <= k < free then s[k].(age := Older(s[k].age)) else s[k]);
    if i == free {
      assert r == s;
    } else {
      var s', lru' := s[i := s[i].(age := Older(s[i].age))], if s[i].age >= s[lru].age then i else lru;
      ScanFree(s', i + 1, lru', free);
      assert r == seq(|s|, k requires 0 <= k < |s| => if i + 1 <= k < free then s'[k].(age := Older(s'[k].age)) else s'[k]);
    }
  }

  predicate AllSounding(notes: seq<byte>) {
    forall i | 0 <= i < |notes| :: notes[i] != 0
  }

  /** One more note ages every slot by one and makes slot h the youngest. */
  lemma AgeStep(k: nat, h: nat, m: nat)
    requires k < m && h < m
    ensures var h' := if h + 1 == m then 0 else h + 1;
            && (k == h ==> AgeAt(k, h, m) == m - 1 && AgeAt(k, h', m) == 0)
            && (k != h ==> AgeAt(k, h, m) < m - 1 && AgeAt(k, h', m) == AgeAt(k, h, m) + 1)
  {
  }

  /** A cell one note later: older by one, or the one just played. */
  lemma CellNext(s: seq<Slot>, r: seq<Slot>, notes: seq<byte>, pitch: byte, k: nat)
    requires k < |s| == |r| <= 255 && RingCell(s, notes, k)
    requires var h := Head(|notes|, |s|);
             if k == h then r[k] == Slot(0, pitch)
             else r[k] == if k < |notes| then s[k].(age := Older(s[k].age)) else s[k]
    ensures RingCell(r, notes + [pitch], k)
  {
    hide Head, AgeAt;
    var m, h := |s|, Head(|notes|, |s|);
    HeadNext(|notes|, m);
    AgeStep(k, h, m);
    var a := AgeAt(k, Head(|notes| + 1, m), m);
    if k < |notes| && k != h {
      assert (notes + [pitch])[|notes| - a] == notes[|notes| - a];
    }
  }

  lemma RingFilling(s: seq<Slot>, notes: seq<byte>, pitch: byte)
    requires Ring(s, notes) && pitch != 0 && AllSounding(notes) && |notes| < |s|
    ensures Scan(s, 0, 0).1 == Head(|notes|, |s|)
    ensures Ring(NoteOn(s, pitch), notes + [pitch])
  {
    hide Scan, Head, AgeAt;
    var n, m := |notes|, |s|;
    HeadNext(n, m);
    assert RingCell(s, notes, n);
    forall k | 0 <= k < n ensures s[k].pitch != 0 {
      assert RingCell(s, notes, k);
    }
    ScanFree(s, 0, 0, n);
    var r := NoteOn(s, pitch);
    hide RingCell;
    forall k | 0 <= k < m ensures RingCell(r, notes + [pitch], k) {
      assert RingCell(s, notes, k);
      CellNext(s, r, notes, pitch, k);
    }
  }

  lemma RingFull(s: seq<Slot>, notes: seq<byte>, pitch: byte)
    requires Ring(s, notes) && pitch != 0 && AllSounding(notes) && |notes| >= |s|
    ensures Scan(s, 0, 0).1 == Head(|notes|, |s|)
    ensures Ring(NoteOn(s, pitch), notes + [pitch])
  {
    hide Scan, Head, AgeAt, Ring;
    var n, m := |notes|, |s|;
    assert 0 < m <= 255 && forall k | 0 <= k < m :: RingCell(s, notes, k) by { RingCells(s, notes); }
    var h := Head(n, m);
    forall k | 0 <= k < m
      ensures s[k].pitch != 0 && s[k].age < 255 && (k != h ==> s[k].age < s[h].age)
    {
      AgeStep(k, h, m);
      AgeStep(h, h, m);
      assert RingCell(s, notes, k) && RingCell(s, notes, h);
    }
    ScanFull(s, 0, 0, h);
    var r := NoteOn(s, pitch);
    hide RingCell;
    forall k | 0 <= k < m ensures RingCell(r, notes + [pitch], k) {
      CellNext(s, r, notes, pitch, k);
    }
    RingCells(r, notes + [pitch]);
  }

  lemma RingCells(s: seq<Slot>, notes: seq<byte>)
    ensures Ring(s, notes) <==> 0 < |s| <= 255 && forall k | 0 <= k < |s| :: RingCell(s, notes, k)
  {
  }

  /** In any run of note-ons the table is a ring: the last min(n, m) notes, each
      at the age that counts the notes since it. */
  lemma {:induction false} PlayedRing(s: seq<Slot>, notes: seq<byte>)
    requires 0 < |s| <= 255 && AllFree(s) && AllSounding(notes)
    ensures Ring(PlayAll(s, notes), notes)
    decreases |notes|
  {
    if |notes| > 0 {
      hide NoteOn, Head, AgeAt;
      var n := |notes| - 1;
      var t := PlayAll(s, notes[..n]);
      PlayedRing(s, notes[..n]);
      if n < |s| {
        RingFilling(t, notes[..n], notes[n]);
      } else {
        RingFull(t, notes[..n], notes[n]);
      }
      assert notes[..n] + [notes[n]] == notes;
    }
  }

  /** The slot whose age is a, when the next note goes to slot h. */
  function SlotOf(a: nat, h: nat, m: nat): (k: nat)
    requires a < m && h < m
    ensures k < m && AgeAt(k, h, m) == a
  {
    if a < h then h - 1 - a else h - 1 - a + m
  }

  /** Read by age: for every a below min(n, m) exactly one slot is a notes old,
      and it sounds the note played a notes before the last; the next note
      replaces the oldest once the table is full. */
  lemma LastNotesHeld(s: seq<Slot>, notes: seq<byte>, a: nat)
    requires 0 < |s| <= 255 && AllFree(s) && AllSounding(notes)
    requires a < |notes| && a < |s|
    ensures var t, k := PlayAll(s, notes), SlotOf(a, Head(|notes|, |s|), |s|);
            && t[k] == Slot(a as byte, notes[|notes| - 1 - a])
            && (forall j | 0 <= j < |s| && j < |notes| && j != k :: t[j].age != a as byte)
    ensures |notes| >= |s| ==> Scan(PlayAll(s, notes), 0, 0).1 == SlotOf(|s| - 1, Head(|notes|, |s|), |s|)
  {
    hide Scan, NoteOn, PlayAll, Head;
    var t, n, m := PlayAll(s, notes), |notes|, |s|;
    PlayedRing(s, notes);
    var k := SlotOf(a, Head(n, m), m);
    HeadNext(n, m);
    assert RingCell(t, notes, k);
    forall j | 0 <= j < m && j < n && j != k ensures t[j].age != a as byte {
      assert RingCell(t, notes, j);
    }
    if n >= m {
      RingFull(t, notes, 1);
    }
  }

  // ----- with note-offs -----

  predicate Sounding(s: seq<Slot>, i: int) {
    0 <= i < |s| && s[i].pitch != 0
  }

  /** Ages order the sounding slots as their start times do: older is older. */
  ghost predicate AgesOrdered(s: seq<Slot>, started: seq<nat>) {
    && |started| == |s|
    && forall i, j | Sounding(s, i) && Sounding(s, j) && started[i] < started[j] :: s[i].age > s[j].age
  }

  /** A slot above the free one f that is as young as the new note, or one older
      than a slot below f, which is about to catch up. */
  predicate Overtaken(s: seq<Slot>, f: nat)
    requires f < |s|
  {
    exists j | f < j < |s| ::
      s[j].pitch != 0 && (s[j].age == 0 || exists i | 0 <= i < f :: s[i].age as int + 1 == s[j].age as int)
  }

  /** The table a note-on leaves when f is its first free slot. */
  predicate Reused(s: seq<Slot>, r: seq<Slot>, f: nat, pitch: byte) {
    && f < |s| == |r| && s[f].pitch == 0 && pitch != 0
    && forall k | 0 <= k < |s| ::
         if k == f then r[k] == Slot(0, pitch)
         else if k < f then s[k].pitch != 0 && s[k].age < 255 && r[k] == s[k].(age := s[k].age + 1)
         else r[k] == s[k]
  }

  /** Sounding slots started at different times, all before `now`. */
  ghost predicate Started(s: seq<Slot>, started: seq<nat>, now: nat) {
    && |started| == |s|
    && (forall i, j | Sounding(s, i) && Sounding(s, j) && i != j :: started[i] != started[j])
    && (forall i | Sounding(s, i) :: started[i] < now)
  }

  lemma OvertakenBreaks(s: seq<Slot>, r: seq<Slot>, started: seq<nat>, f: nat, pitch: byte, now: nat)
    requires AgesOrdered(s, started) && Started(s, started, now) && Reused(s, r, f, pitch) && Overtaken(s, f)
    ensures !AgesOrdered(r, started[f := now])
  {
    var j :| f < j < |s| && s[j].pitch != 0
             && (s[j].age == 0 || exists i | 0 <= i < f :: s[i].age as int + 1 == s[j].age as int);
    assert Sounding(r, j) && Sounding(r, f) && Sounding(s, j);
    if s[j].age != 0 {
      var i :| 0 <= i < f && s[i].age as int + 1 == s[j].age as int;
      assert Sounding(s, i) && Sounding(r, i);
    }
  }

  lemma NotOvertakenKeeps(s: seq<Slot>, r: seq<Slot>, started: seq<nat>, f: nat, pitch: byte, now: nat)
    requires AgesOrdered(s, started) && Started(s, started, now) && Reused(s, r, f, pitch) && !Overtaken(s, f)
    ensures AgesOrdered(r, started[f := now])
  {
    assert forall k | 0 <= k < |s| && k != f :: Sounding(r, k) == Sounding(s, k);
  }

  /** Reusing a freed slot f only ages the slots below it, so it keeps the ages
      in order exactly when no slot above f is overtaken. */
  lemma ReuseKeepsOrderIff(s: seq<Slot>, started: seq<nat>, f: nat, pitch: byte, now: nat)
    requires AgesOrdered(s, started) && Started(s, started, now) && f < |s| && s[f].pitch == 0 && pitch != 0
    requires forall k | 0 <= k < f :: s[k].pitch != 0 && s[k].age < 255
    ensures AgesOrdered(NoteOn(s, pitch), started[f := now]) <==> !Overtaken(s, f)
  {
    hide Scan, AgesOrdered, Started, Overtaken;
    ScanFree(s, 0, 0, f);
    var r := NoteOn(s, pitch);
    if Overtaken(s, f) {
      OvertakenBreaks(s, r, started, f, pitch, now);
    } else {
      NotOvertakenKeeps(s, r, started, f, pitch, now);
    }
  }

  /** Three slots, as shipped: A, B, C, release A, D, E, F. The last note replaces
      D although C has been sounding for longer. */
  lemma ReleaseBreaksLru(a: byte, b: byte, c: byte, d: byte, e: byte, f: byte)
    requires a != 0 && b != 0 && c != 0 && d != 0 && e != 0 && a != b && a != c
    ensures var released := NoteOff(PlayAll([Slot(0, 0), Slot(0, 0), Slot(0, 0)], [a, b, c]), a);
            && PlayAll(released, [d, e]) == [Slot(1, d), Slot(0, e), Slot(1, c)]
            && PlayAll(released, [d, e, f]) == [Slot(0, f), Slot(1, e), Slot(2, c)]
  {
    hide NoteOn, NoteOff, PlayAll;
    ThreePlayed(a, b, c);
    Release(a, b, c);
    var s0: seq<Slot> := [Slot(2, 0), Slot(1, b), Slot(0, c)];
    ReuseFirst(s0, d);
    OldestSecond(d, b, c, e);
    OldestFirst(d, e, c, f);
    PlayTwo(s0, d, e);
    PlayThree(s0, d, e, f);
  }

  lemma PlayTwo(s: seq<Slot>, x: byte, y: byte)
    requires |s| > 0
    ensures PlayAll(s, [x, y]) == NoteOn(NoteOn(s, x), y)
  {
    hide NoteOn;
    assert [x, y][..1] == [x] && [x][..0] == [];
    assert PlayAll(s, [x]) == NoteOn(PlayAll(s, []), x);
  }

  lemma PlayThree(s: seq<Slot>, x: byte, y: byte, z: byte)
    requires |s| > 0
    ensures PlayAll(s, [x, y, z]) == NoteOn(NoteOn(NoteOn(s, x), y), z)
  {
    hide NoteOn;
    PlayTwo(s, x, y);
    assert [x, y, z][..2] == [x, y];
  }

  lemma ThreePlayed(a: byte, b: byte, c: byte)
    requires a != 0 && b != 0
    ensures PlayAll([Slot(0, 0), Slot(0, 0), Slot(0, 0)], [a, b, c]) == [Slot(2, a), Slot(1, b), Slot(0, c)]
  {
    hide Scan, PlayAll;
    var s0: seq<Slot> := [Slot(0, 0), Slot(0, 0), Slot(0, 0)];
    ScanFree(s0, 0, 0, 0);
    var s1 := NoteOn(s0, a);
    assert s1 == [Slot(0, a), Slot(0, 0), Slot(0, 0)];
    ScanFree(s1, 0, 0, 1);
    var s2 := NoteOn(s1, b);
    assert s2 == [Slot(1, a), Slot(0, b), Slot(0, 0)];
    ScanFree(s2, 0, 0, 2);
    assert NoteOn(s2, c) == [Slot(2, a), Slot(1, b), Slot(0, c)];
    PlayThree(s0, a, b, c);
  }

  lemma Release(a: byte, b: byte, c: byte)
    requires a != b && a != c
    ensures NoteOff([Slot(2, a), Slot(1, b), Slot(0, c)], a) == [Slot(2, 0), Slot(1, b), Slot(0, c)]
  {
  }

  /** The freed first slot is taken without ageing the others. */
  lemma ReuseFirst(s: seq<Slot>, d: byte)
    requires |s| == 3 && s[0].pitch == 0
    ensures NoteOn(s, d) == [Slot(0, d), s[1], s[2]]
  {
    hide Scan;
    ScanFree(s, 0, 0, 0);
  }

  lemma OldestSecond(d: byte, b: byte, c: byte, e: byte)
    requires d != 0 && b != 0 && c != 0
    ensures NoteOn([Slot(0, d), Slot(1, b), Slot(0, c)], e) == [Slot(1, d), Slot(0, e), Slot(1, c)]
  {
    hide Scan;
    var s: seq<Slot> := [Slot(0, d), Slot(1, b), Slot(0, c)];
    ScanFull(s, 0, 0, 1);
  }

  lemma OldestFirst(d: byte, e: byte, c: byte, f: byte)
    requires d != 0 && e != 0 && c != 0
    ensures NoteOn([Slot(1, d), Slot(0, e), Slot(1, c)], f) == [Slot(0, f), Slot(1, e), Slot(2, c)]
  {
    hide Scan;
    var s: seq<Slot> := [Slot(1, d), Slot(0, e), Slot(1, c)];
    var s1: seq<Slot> := [Slot(2, d), Slot(0, e), Slot(1, c)];
    assert Scan(s, 0, 0) == Scan(s1, 1, 0) by { ScanStep(s, 0, 0); assert s[0 := Slot(2, d)] == s1; }
    ScanFull(s1, 1, 0, 0);
  }

  lemma ScanStep(s: seq<Slot>, i: nat, lru: nat)
    requires i < |s| && lru < |s| && s[i].pitch != 0
    ensures Scan(s, i, lru)
            == Scan(s[i := s[i].(age := Older(s[i].age))], i + 1, if s[i].age >= s[lru].age then i else lru)
  {
  }
}
