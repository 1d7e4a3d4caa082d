/** The FAT12 allocation table the mass-storage bootloader synthesises, and an
    independent reader of such tables as defined by the FAT specification
    ("FAT: General Overview of On-Disk Format", section "FAT Data Structure"). */
module Fat12 {
  import opened Spm

  const END_OF_CHAIN: nat := 0xFFF
  const MEDIA_ENTRY: nat := 0xFF8
  /** Largest index whose byte offset fits the 8-bit FATOffset variable. */
  const LAST_INDEX: nat := 170

  // ----- the reader -----

  /** Entry i: the 16-bit word at i + i/2, low 12 bits for an even index, high
      12 bits for an odd one. */
  function Decode(t: seq<byte>, i: nat): (e: nat)
    requires i + i / 2 + 1 < |t|
  {
    var w := t[i + i / 2] as nat + 256 * t[i + i / 2 + 1] as nat;
    if i % 2 == 0 then w % 4096 else w / 16
  }

  // ----- the writer -----

  /** Bitwise disjunction of two bytes. */
  function Or(a: byte, b: byte): (r: byte) {
    ((a as int + b as int - And(a, b) as int) % 256) as byte
  }

  /** UpdateFAT12ClusterEntry: FATOffset is an 8-bit variable, and the even case
      takes the shared byte's upper nibble from the byte just stored. */
  function UpdateEntry(t: seq<byte>, index: nat, entry: nat): (r: seq<byte>)
    requires |t| == 512 && entry < 65536
    ensures |r| == 512
  {
    UpdateAt(t, (index + index / 2) % 256, index % 2 == 1, entry)
  }

  function UpdateAt(t: seq<byte>, off: nat, odd: bool, entry: nat): (r: seq<byte>)
    requires |t| == 512 && off < 256 && entry < 65536
    ensures |r| == 512
  {
    if odd then
      t[off := (t[off] as int % 16 + 16 * (entry % 16)) as byte][off + 1 := (entry / 16 % 256) as byte]
    else
      var low := (entry % 256) as byte;
      t[off := low][off + 1 := Or((low / 16) * 16, (entry / 256) as byte)]
  }

  lemma AndDisjoint(h: byte, b: byte)
    requires h < 16 && b < 16
    ensures And(h * 16, b) == 0
  {
    assert And(h, b / 16) == 0;
    assert And(h * 2, b / 8) == 0;
    assert And(h * 4, b / 4) == 0;
    assert And(h * 8, b / 2) == 0;
  }

  /** Reading back after one update: the entry itself is stored; its neighbour
      above loses its low nibble when the index is even; nothing else changes. */
  function Updated(t: seq<byte>, index: nat, entry: nat, i: nat): (e: nat)
    requires i + i / 2 + 1 < |t|
  {
    if i == index then entry
    else if i == index + 1 && index % 2 == 0 then Decode(t, i) / 16 * 16 + entry % 256 / 16
    else Decode(t, i)
  }

  lemma UpdateDecode(t: seq<byte>, index: nat, entry: nat, i: nat)
    requires |t| == 512 && index <= LAST_INDEX && entry < 4096 && i + i / 2 + 1 < |t|
    ensures Decode(UpdateEntry(t, index, entry), i) == Updated(t, index, entry, i)
  {
    hide UpdateEntry, Decode;
    var a := index / 2;
    if index % 2 == 1 {
      OddEntry(t, a, entry);
      OddUpdate(t, UpdateEntry(t, index, entry), a, entry, i);
    } else {
      EvenEntry(t, a, entry);
      EvenUpdate(t, UpdateEntry(t, index, entry), a, entry, i);
    }
  }

  /** Beyond the reach of the 8-bit offset the entry is not stored: bytes at the
      front of the table change instead. */
  lemma BeyondReach(t: seq<byte>, index: nat, entry: nat)
    requires |t| == 512 && index > LAST_INDEX && index + index / 2 + 1 < |t| && entry < 4096
    ensures Decode(UpdateEntry(t, index, entry), index) == Decode(t, index)
    ensures UpdateEntry(t, index, entry)[256..] == t[256..]
  {
    var off := index + index / 2;
    assert 256 <= off < 511 && off % 256 == off - 256;
  }

  /** So exactly the entries up to 170 can be stored. */
  lemma StorableIff(index: nat)
    requires index + index / 2 + 1 < 512
    ensures (forall t: seq<byte>, entry: nat | |t| == 512 && entry < 4096 ::
               Decode(UpdateEntry(t, index, entry), index) == entry)
            <==> index <= 170
  {
    hide UpdateEntry, Decode;
    forall t: seq<byte>, entry: nat | |t| == 512 && entry < 4096 && index <= 170
      ensures Decode(UpdateEntry(t, index, entry), index) == entry
    {
      UpdateDecode(t, index, entry, index);
    }
    if index > 170 {
      var t: seq<byte> := seq(512, _ => 0);
      BeyondReach(t, index, 0);
      BeyondReach(t, index, 1);
    }
  }

  lemma OddEntry(t: seq<byte>, a: nat, entry: nat)
    requires |t| == 512 && 2 * a + 1 <= LAST_INDEX && entry < 4096
    ensures UpdateEntry(t, 2 * a + 1, entry)
            == t[3 * a + 1 := (t[3 * a + 1] as int % 16 + 16 * (entry % 16)) as byte][3 * a + 2 := (entry / 16) as byte]
  {
    EntryOffset(a);
  }

  /** Where the entries 2a and 2a + 1 start; the 8-bit offset does not wrap. */
  lemma EntryOffset(a: nat)
    requires 2 * a <= LAST_INDEX
    ensures (2 * a + 2 * a / 2) % 256 == 3 * a && (2 * a) % 2 == 0
    ensures 2 * a + 1 <= LAST_INDEX ==> (2 * a + 1 + (2 * a + 1) / 2) % 256 == 3 * a + 1 && (2 * a + 1) % 2 == 1
  {
    assert 2 * a / 2 == a && (2 * a + 1) / 2 == a;
  }

  lemma EvenEntry(t: seq<byte>, a: nat, entry: nat)
    requires |t| == 512 && 2 * a <= LAST_INDEX && entry < 4096
    ensures UpdateEntry(t, 2 * a, entry)
            == t[3 * a := (entry % 256) as byte][3 * a + 1 := (entry % 256 / 16 * 16 + entry / 256) as byte]
  {
    hide Or, UpdateAt;
    EntryOffset(a);
    EvenUpdateAt(t, 3 * a, entry);
  }

  lemma EvenUpdateAt(t: seq<byte>, off: nat, entry: nat)
    requires |t| == 512 && off < 256 && entry < 4096
    ensures UpdateAt(t, off, false, entry)
            == t[off := (entry % 256) as byte][off + 1 := (entry % 256 / 16 * 16 + entry / 256) as byte]
  {
    hide Or;
    OrDisjoint((entry % 256 / 16) as byte, (entry / 256) as byte);
  }

  lemma OrDisjoint(h: byte, b: byte)
    requires h < 16 && b < 16
    ensures Or(h * 16, b) == h * 16 + b
  {
    hide And;
    AndDisjoint(h, b);
  }

  /** Entries 2b and 2b+1 share the three bytes from 3b on. */
  lemma DecodePair(t: seq<byte>, b: nat)
    ensures 3 * b + 1 < |t| ==> Decode(t, 2 * b) == t[3 * b] as nat + 256 * (t[3 * b + 1] as nat % 16)
    ensures 3 * b + 2 < |t| ==> Decode(t, 2 * b + 1) == t[3 * b + 1] as nat / 16 + 16 * t[3 * b + 2] as nat
  {
    assert 2 * b / 2 == b && (2 * b + 1) / 2 == b;
    if 3 * b + 1 < |t| {
      WordNibbles(t[3 * b] as nat, t[3 * b + 1] as nat);
    }
    if 3 * b + 2 < |t| {
      WordNibbles(t[3 * b + 1] as nat, t[3 * b + 2] as nat);
    }
  }

  lemma WordNibbles(x: nat, y: nat)
    requires x < 256 && y < 256
    ensures (x + 256 * y) % 4096 == x + 256 * (y % 16)
    ensures (x + 256 * y) / 16 == x / 16 + 16 * y
  {
  }

  lemma OddUpdate(t: seq<byte>, r: seq<byte>, a: nat, entry: nat, i: nat)
    requires |t| == 512 && 3 * a + 2 < 512 && entry < 4096 && i + i / 2 + 1 < |t|
    requires r == t[3 * a + 1 := (t[3 * a + 1] as int % 16 + 16 * (entry % 16)) as byte][3 * a + 2 := (entry / 16) as byte]
    ensures Decode(r, i) == if i == 2 * a + 1 then entry else Decode(t, i)
  {
    hide Decode;
    var b := i / 2;
    assert i == 2 * b || i == 2 * b + 1;
    DecodePair(t, b);
    DecodePair(r, b);
  }

  lemma EvenUpdate(t: seq<byte>, r: seq<byte>, a: nat, entry: nat, i: nat)
    requires |t| == 512 && 3 * a + 1 < 512 && entry < 4096 && i + i / 2 + 1 < |t|
    requires r == t[3 * a := (entry % 256) as byte][3 * a + 1 := (entry % 256 / 16 * 16 + entry / 256) as byte]
    ensures Decode(r, i) == if i == 2 * a then entry
                            else if i == 2 * a + 1 then Decode(t, i) / 16 * 16 + entry % 256 / 16
                            else Decode(t, i)
  {
    hide Decode;
    var b := i / 2;
    assert i == 2 * b || i == 2 * b + 1;
    DecodePair(t, b);
    DecodePair(r, b);
    EntryNibbles(entry);
    if i == 2 * a + 1 {
      HighNibbles(t[3 * a + 1] as nat, t[3 * a + 2] as nat);
    }
  }

  lemma EntryNibbles(entry: nat)
    requires entry < 4096
    ensures (entry % 256 / 16 * 16 + entry / 256) % 16 == entry / 256
    ensures (entry % 256 / 16 * 16 + entry / 256) / 16 == entry % 256 / 16
    ensures entry % 256 + 256 * (entry / 256) == entry
  {
  }

  lemma HighNibbles(x: nat, y: nat)
    requires x < 256 && y < 256
    ensures (x / 16 + 16 * y) / 16 * 16 == 16 * y
  {
  }

  // ----- chains -----

  /** What UpdateFAT12ClusterChain stores for the i-th cluster of a chain. */
  function Next(start: nat, length: nat, i: nat): (e: nat)
    ensures e < 65536
  {
    if i + 1 == length then END_OF_CHAIN else (start + i + 1) % 65536
  }

  /** The table after the first n rounds of the loop of UpdateFAT12ClusterChain. */
  function ChainUpTo(t: seq<byte>, start: nat, length: nat, n: nat): (r: seq<byte>)
    requires |t| == 512
    ensures |r| == 512
  {
    if n == 0 then t
    else UpdateEntry(ChainUpTo(t, start, length, n - 1), (start + n - 1) % 65536, Next(start, length, n - 1))
  }

  function UpdateChain(t: seq<byte>, start: nat, length: nat): (r: seq<byte>)
    requires |t| == 512
    ensures |r| == 512
  {
    ChainUpTo(t, start, length, length)
  }

  /** Reading back after n rounds: the clusters done so far point onwards, the
      one above may have lost its low nibble, all others are untouched. */
  function Chained(t: seq<byte>, start: nat, length: nat, n: nat, i: nat): (e: nat)
    requires i + i / 2 + 1 < |t|
  {
    if start <= i < start + n then Next(start, length, i - start)
    else if n > 0 && i == start + n && (start + n - 1) % 2 == 0
    then Decode(t, i) / 16 * 16 + Next(start, length, n - 1) % 256 / 16
    else Decode(t, i)
  }

  lemma {:induction false} ChainDecode(t: seq<byte>, start: nat, length: nat, n: nat, i: nat)
    requires |t| == 512 && n <= length && start + length <= LAST_INDEX + 1 && i + i / 2 + 1 < |t|
    ensures Decode(ChainUpTo(t, start, length, n), i) == Chained(t, start, length, n, i)
    decreases n
  {
    hide Decode, UpdateEntry;
    if n > 0 {
      ChainDecode(t, start, length, n - 1, i);
      UpdateDecode(ChainUpTo(t, start, length, n - 1), start + n - 1, Next(start, length, n - 1), i);
    }
  }

  // ----- the FAT block -----

  /** The FAT block built for a read: reserved entries, the FLASH.BIN chain,
      then the EEPROM.BIN chain. */
  function FatTable(flashStart: nat, flashLen: nat, eepromStart: nat, eepromLen: nat): (t: seq<byte>)
    ensures |t| == 512
  {
    var zero: seq<byte> := seq(512, _ => 0);
    var reserved := UpdateEntry(UpdateEntry(zero, 0, MEDIA_ENTRY), 1, END_OF_CHAIN);
    UpdateChain(UpdateChain(reserved, flashStart, flashLen), eepromStart, eepromLen)
  }

  predicate InChain(i: nat, start: nat, length: nat) {
    start <= i < start + length
  }

  /** Both chains within the table the writer can reach and apart. */
  predicate Placed(flashStart: nat, flashLen: nat, eepromStart: nat, eepromLen: nat) {
    && 2 <= flashStart && 0 < flashLen && flashStart + flashLen <= LAST_INDEX + 1
    && 2 <= eepromStart && 0 < eepromLen && eepromStart + eepromLen <= LAST_INDEX + 1
    && (flashStart + flashLen <= eepromStart || eepromStart + eepromLen <= flashStart)
  }

  predicate Allocated(flashStart: nat, flashLen: nat, eepromStart: nat, eepromLen: nat, i: nat) {
    i < 2 || InChain(i, flashStart, flashLen) || InChain(i, eepromStart, eepromLen)
  }

  /** The entry a disk with these two files should hold. */
  function Intended(flashStart: nat, flashLen: nat, eepromStart: nat, eepromLen: nat, i: nat): (e: nat)
    requires Allocated(flashStart, flashLen, eepromStart, eepromLen, i)
  {
    if i == 0 then MEDIA_ENTRY else if i == 1 then END_OF_CHAIN
    else if InChain(i, eepromStart, eepromLen) then Next(eepromStart, eepromLen, i - eepromStart)
    else Next(flashStart, flashLen, i - flashStart)
  }

  /** EEPROM.BIN ends right below an odd FLASH.BIN start of several clusters:
      writing its last entry destroys the low nibble of FLASH.BIN's first. */
  predicate Clobbers(flashStart: nat, flashLen: nat, eepromStart: nat, eepromLen: nat) {
    eepromStart + eepromLen == flashStart && flashStart % 2 == 1 && flashLen > 1
  }

  lemma ReservedDecode(i: nat)
    requires i < 2
    ensures var zero: seq<byte> := seq(512, _ => 0);
            Decode(UpdateEntry(UpdateEntry(zero, 0, MEDIA_ENTRY), 1, END_OF_CHAIN), i)
            == if i == 0 then MEDIA_ENTRY else END_OF_CHAIN
  {
    hide Decode, UpdateEntry;
    var zero: seq<byte> := seq(512, _ => 0);
    UpdateDecode(UpdateEntry(zero, 0, MEDIA_ENTRY), 1, END_OF_CHAIN, i);
    UpdateDecode(zero, 0, MEDIA_ENTRY, i);
  }

  /** One allocated entry of the block: right, except a clobbered FLASH.BIN start. */
  lemma TableDecode(fs: nat, fl: nat, es: nat, el: nat, i: nat)
    requires Placed(fs, fl, es, el) && Allocated(fs, fl, es, el, i)
    ensures var e := Intended(fs, fl, es, el, i);
            Decode(FatTable(fs, fl, es, el), i)
            == if i == fs && es + el == fs && fs % 2 == 1 then e / 16 * 16 + 15 else e
  {
    hide Decode, UpdateEntry, ChainUpTo;
    var zero: seq<byte> := seq(512, _ => 0);
    var reserved := UpdateEntry(UpdateEntry(zero, 0, MEDIA_ENTRY), 1, END_OF_CHAIN);
    ChainDecode(UpdateChain(reserved, fs, fl), es, el, el, i);
    ChainDecode(reserved, fs, fl, fl, i);
    if i < 2 {
      ReservedDecode(i);
    }
  }

  /** The block describes the two files exactly when the EEPROM chain does not
      end right below an odd, longer FLASH chain. */
  lemma TableCorrectIff(fs: nat, fl: nat, es: nat, el: nat)
    requires Placed(fs, fl, es, el)
    ensures (forall i: nat | Allocated(fs, fl, es, el, i) ::
               Decode(FatTable(fs, fl, es, el), i) == Intended(fs, fl, es, el, i))
            <==> !Clobbers(fs, fl, es, el)
  {
    hide Decode, FatTable;
    forall i: nat | Allocated(fs, fl, es, el, i)
      ensures var e := Intended(fs, fl, es, el, i);
              Decode(FatTable(fs, fl, es, el), i) == if i == fs && es + el == fs && fs % 2 == 1 then e / 16 * 16 + 15 else e
    {
      TableDecode(fs, fl, es, el, i);
    }
    if Clobbers(fs, fl, es, el) {
      assert Allocated(fs, fl, es, el, fs) && fs <= LAST_INDEX;
      assert Intended(fs, fl, es, el, fs) == fs + 1;
    }
  }

  // ----- following a chain -----

  /** The clusters a reader visits from cluster i, giving up after `fuel`. */
  function Follow(t: seq<byte>, i: nat, fuel: nat): (cs: seq<nat>)
    decreases fuel
  {
    if fuel == 0 || i + i / 2 + 1 >= |t| then []
    else if Decode(t, i) >= MEDIA_ENTRY then [i]
    else [i] + Follow(t, Decode(t, i), fuel - 1)
  }

  function Clusters(start: nat, length: nat): (cs: seq<nat>)
    ensures |cs| == length && forall k | 0 <= k < length :: cs[k] == start + k
  {
    seq(length, k => start + k)
  }

  lemma IndexInside(i: nat)
    requires i <= LAST_INDEX
    ensures i + i / 2 + 1 < 512
  {
  }

  /** The entries of a chain that runs linearly. */
  predicate Linear(t: seq<byte>, start: nat, length: nat) {
    |t| == 512 && start + length <= LAST_INDEX + 1 && forall i | 0 <= i < length :: EntryIs(t, start + i, Next(start, length, i))
  }

  predicate EntryIs(t: seq<byte>, k: nat, e: nat) {
    k + k / 2 + 1 < |t| && Decode(t, k) == e
  }

  lemma FollowStep(t: seq<byte>, k: nat, e: nat, fuel: nat)
    requires EntryIs(t, k, e) && fuel > 0
    ensures Follow(t, k, fuel) == if e >= MEDIA_ENTRY then [k] else [k] + Follow(t, e, fuel - 1)
  {
    hide Decode;
  }

  /** Entries that run linearly are read as a linear chain. */
  lemma {:induction false} FollowLinear(t: seq<byte>, start: nat, length: nat, i: nat, fuel: nat)
    requires Linear(t, start, length) && i < length && fuel >= length - i
    ensures Follow(t, start + i, fuel) == Clusters(start + i, length - i)
    decreases length - i
  {
    hide Follow, EntryIs;
    assert EntryIs(t, start + i, Next(start, length, i));
    FollowStep(t, start + i, Next(start, length, i), fuel);
    if i + 1 < length {
      FollowLinear(t, start, length, i + 1, fuel - 1);
      assert [start + i] + Clusters(start + i + 1, length - i - 1) == Clusters(start + i, length - i);
    } else {
      assert Clusters(start + i, 1) == [start + i];
    }
  }

  /** A reader of the FAT block finds each file's clusters, in order. */
  lemma ReaderFindsChains(fs: nat, fl: nat, es: nat, el: nat, fuel: nat)
    requires Placed(fs, fl, es, el) && !Clobbers(fs, fl, es, el) && fuel >= fl && fuel >= el
    ensures Follow(FatTable(fs, fl, es, el), fs, fuel) == Clusters(fs, fl)
    ensures Follow(FatTable(fs, fl, es, el), es, fuel) == Clusters(es, el)
  {
    hide Decode, FatTable, Follow;
    var t := FatTable(fs, fl, es, el);
    TableCorrectIff(fs, fl, es, el);
    forall i | 0 <= i < fl ensures EntryIs(t, fs + i, Next(fs, fl, i)) {
      assert Allocated(fs, fl, es, el, fs + i);
      IndexInside(fs + i);
    }
    forall i | 0 <= i < el ensures EntryIs(t, es + i, Next(es, el, i)) {
      assert Allocated(fs, fl, es, el, es + i);
      IndexInside(es + i);
    }
    FollowLinear(t, fs, fl, 0, fuel);
    FollowLinear(t, es, el, 0, fuel);
  }
}
