/** Runs of note-ons and note-offs: which notes the tone generator sounds. */
module MidiVoices {
  import opened Spm
  import opened Midi

  datatype Event = On(pitch: byte) | Off(pitch: byte)

  function Play(s: seq<Slot>, e: Event): (r: seq<Slot>)
    requires |s| > 0
    ensures |r| == |s|
  {
    match e
    case On(pitch) => NoteOn(s, pitch)
    case Off(pitch) => NoteOff(s, pitch)
  }

  function PlayEvents(s: seq<Slot>, es: seq<Event>): (r: seq<Slot>)
    requires |s| > 0
    ensures |r| == |s|
    decreases |es|
  {
    if |es| == 0 then s else Play(PlayEvents(s, es[..|es| - 1]), es[|es| - 1])
  }

  /** The keys held after one more event. Pitch 0 is the mark of a free slot and
      makes no sound. */
  function Next(h: multiset<byte>, e: Event): (r: multiset<byte>) {
    match e
    case On(pitch) => if pitch == 0 then h else h[pitch := h[pitch] + 1]
    case Off(pitch) => h[pitch := 0]
  }

  /** The keys a player holds down: pressed and not released since. */
  function Held(es: seq<Event>): (h: multiset<byte>)
    ensures h[0] == 0
    decreases |es|
  {
    if |es| == 0 then multiset{} else Next(Held(es[..|es| - 1]), es[|es| - 1])
  }

  function Pitches(s: seq<Slot>): (ps: seq<byte>)
    ensures |ps| == |s|
  {
    seq(|s|, i requires 0 <= i < |s| => s[i].pitch)
  }

  /** The notes a table sounds, each as often as it sounds. */
  function Sounds(s: seq<Slot>): (h: multiset<byte>) {
    multiset(Pitches(s))[0 := 0]
  }

  // ----- one event -----

  /** A scan changes no pitch and settles on a free slot if there is one ahead. */
  lemma {:induction false} ScanPitches(s: seq<Slot>, i: nat, lru: nat)
    requires i <= |s| && lru < |s|
    ensures Pitches(Scan(s, i, lru).0) == Pitches(s)
    ensures (exists k | i <= k < |s| :: s[k].pitch == 0) ==> s[Scan(s, i, lru).1].pitch == 0
    decreases |s| - i
  {
    if i < |s| && s[i].pitch != 0 {
      var s' := s[i := s[i].(age := Older(s[i].age))];
      assert Pitches(s') == Pitches(s);
      ScanPitches(s', i + 1, if s[i].age >= s[lru].age then i else lru);
      assert forall k | 0 <= k < |s| :: s'[k].pitch == Pitches(s)[k] == s[k].pitch;
    }
  }

  /** A note-on puts its pitch in place of exactly one other. */
  lemma OnPitches(s: seq<Slot>, pitch: byte)
    requires |s| > 0
    ensures var k := Scan(s, 0, 0).1;
            multiset(Pitches(NoteOn(s, pitch))) == multiset(Pitches(s)) - multiset{s[k].pitch} + multiset{pitch}
  {
    hide Scan, NoteOn, Pitches;
    var k, ps := Scan(s, 0, 0).1, Pitches(s);
    OnPlaces(s, pitch);
    Replaced(ps, k, pitch);
  }

  lemma OnPlaces(s: seq<Slot>, pitch: byte)
    requires |s| > 0
    ensures var k := Scan(s, 0, 0).1;
            Pitches(s)[k] == s[k].pitch && Pitches(NoteOn(s, pitch)) == Pitches(s)[k := pitch]
  {
    hide Scan;
    ScanPitches(s, 0, 0);
    var k := Scan(s, 0, 0).1;
    assert Pitches(NoteOn(s, pitch)) == Pitches(Scan(s, 0, 0).0)[k := pitch];
  }

  lemma Replaced(ps: seq<byte>, k: nat, pitch: byte)
    requires k < |ps|
    ensures multiset(ps[k := pitch]) == multiset(ps) - multiset{ps[k]} + multiset{pitch}
  {
  }

  /** With a free slot nothing is lost; in a full table one sounding note is. */
  lemma OnSounds(s: seq<Slot>, pitch: byte)
    requires |s| > 0
    ensures |Sounds(s)| < |s| ==>
              Sounds(NoteOn(s, pitch)) == if pitch == 0 then Sounds(s) else Sounds(s)[pitch := Sounds(s)[pitch] + 1]
    ensures |Sounds(s)| == |s| ==> |Sounds(NoteOn(s, pitch))| == if pitch == 0 then |s| - 1 else |s|
  {
    hide Scan, NoteOn;
    OnPitches(s, pitch);
    ScanPitches(s, 0, 0);
    var before, k := multiset(Pitches(s)), Scan(s, 0, 0).1;
    assert |before| == |Pitches(s)| == |s| && |Sounds(s)| == |s| - before[0];
    assert Pitches(s)[k] == s[k].pitch && s[k].pitch in before;
    if before[0] > 0 {
      assert 0 in Pitches(s);
      var f :| 0 <= f < |s| && Pitches(s)[f] == 0;
      assert s[f].pitch == 0;
    } else {
      assert s[k].pitch != 0;
      var after := multiset(Pitches(NoteOn(s, pitch)));
      assert |after| == |Pitches(NoteOn(s, pitch))| == |s|;
      assert after[0] == if pitch == 0 then 1 else 0;
    }
  }

  lemma {:induction false} ReleasedPitches(ps: seq<byte>, qs: seq<byte>, pitch: byte)
    requires |ps| == |qs| && forall i | 0 <= i < |ps| :: qs[i] == if ps[i] == pitch then 0 else ps[i]
    ensures multiset(qs)[0 := 0] == multiset(ps)[0 := 0][pitch := 0]
    decreases |ps|
  {
    if |ps| > 0 {
      var n := |ps| - 1;
      ReleasedPitches(ps[..n], qs[..n], pitch);
      assert ps == ps[..n] + [ps[n]] && qs == qs[..n] + [qs[n]];
      var p, q := multiset(ps[..n]), multiset(qs[..n]);
      assert multiset(ps) == p + multiset{ps[n]} && multiset(qs) == q + multiset{qs[n]};
      ReleasedOne(p, q, ps[n], qs[n], pitch);
    }
  }

  lemma ReleasedOne(p: multiset<byte>, q: multiset<byte>, x: byte, y: byte, pitch: byte)
    requires q[0 := 0] == p[0 := 0][pitch := 0] && y == if x == pitch then 0 else x
    ensures (q + multiset{y})[0 := 0] == (p + multiset{x})[0 := 0][pitch := 0]
  {
    var a, b := q[0 := 0], p[0 := 0][pitch := 0];
    var c, d := (q + multiset{y})[0 := 0], (p + multiset{x})[0 := 0][pitch := 0];
    forall z: byte ensures c[z] == d[z] {
      assert a[z] == b[z];
    }
  }

  /** A note-off silences every slot of its pitch and nothing else. */
  lemma OffSounds(s: seq<Slot>, pitch: byte)
    ensures Sounds(NoteOff(s, pitch)) == Sounds(s)[pitch := 0]
    ensures forall i | 0 <= i < |s| :: NoteOff(s, pitch)[i].age == s[i].age
  {
    ReleasedPitches(Pitches(s), Pitches(NoteOff(s, pitch)), pitch);
  }

  // ----- ages wrap -----

  /** A key pressed and released n times. */
  function Taps(pitch: byte, n: nat): (es: seq<Event>)
    decreases n
  {
    if n == 0 then [] else Taps(pitch, n - 1) + [On(pitch), Off(pitch)]
  }

  lemma OneTap(s: seq<Slot>, pitch: byte)
    requires |s| > 1 && pitch != 0 && s[0].pitch != 0 && s[1].pitch == 0
    requires forall k | 0 <= k < |s| :: s[k].pitch != pitch
    ensures NoteOff(NoteOn(s, pitch), pitch) == s[0 := s[0].(age := Older(s[0].age))][1 := Slot(0, 0)]
  {
    hide Scan;
    ScanFree(s, 0, 0, 1);
  }

  lemma TapPlays(s: seq<Slot>, es: seq<Event>, pitch: byte)
    requires |s| > 0
    ensures PlayEvents(s, es + [On(pitch), Off(pitch)]) == NoteOff(NoteOn(PlayEvents(s, es), pitch), pitch)
  {
    hide NoteOn, NoteOff;
    var on := es + [On(pitch)];
    var off := es + [On(pitch), Off(pitch)];
    assert off[..|off| - 1] == on && on[..|on| - 1] == es;
  }

  /** While the first slot holds a note and the second key is tapped n times, the age
      of the first counts the taps modulo 256: after 256 of them the oldest note is as
      young as a new one. */
  lemma {:induction false} TapsAge(s: seq<Slot>, pitch: byte, n: nat)
    requires |s| > 1 && pitch != 0 && s[0].pitch != 0 && s[1] == Slot(0, 0)
    requires forall k | 0 <= k < |s| :: s[k].pitch != pitch
    ensures PlayEvents(s, Taps(pitch, n)) == s[0 := Slot(((s[0].age as nat + n) % 256) as byte, s[0].pitch)]
    decreases n
  {
    hide NoteOn, NoteOff, Play;
    if n == 0 {
      assert s[0 := s[0]] == s;
    } else {
      TapsAge(s, pitch, n - 1);
      var t := PlayEvents(s, Taps(pitch, n - 1));
      TapPlays(s, Taps(pitch, n - 1), pitch);
      OneTap(t, pitch);
      Wraps(s[0].age as nat + n - 1);
    }
  }

  lemma Wraps(n: nat)
    ensures Older((n % 256) as byte) == ((n + 1) % 256) as byte
  {
  }

  // ----- any run -----

  predicate SoundsAs(s: seq<Slot>, h: multiset<byte>) {
    Sounds(s) == h
  }

  /** Every key press finds a free slot. */
  ghost predicate RoomAlways(es: seq<Event>, m: nat) {
    forall k | 0 <= k < |es| :: es[k].On? ==> |Held(es[..k])| < m
  }

  /** The generator sounds exactly the held keys at every moment of a run. */
  ghost predicate SoundsHeld(s: seq<Slot>, es: seq<Event>)
    requires |s| > 0
  {
    forall k | 0 <= k <= |es| :: SoundsAs(PlayEvents(s, es[..k]), Held(es[..k]))
  }

  lemma {:induction false} AllFreeSilent(s: seq<Slot>)
    requires AllFree(s)
    ensures Sounds(s) == multiset{}
  {
    forall x: byte ensures Sounds(s)[x] == 0 {
      if x != 0 {
        assert x !in Pitches(s);
      }
    }
  }

  /** One more event keeps the two the same exactly when a press finds room. */
  lemma {:induction false} EventStepIff(s: seq<Slot>, es: seq<Event>, n: nat)
    requires |s| > 0 && |es| == n + 1 && SoundsAs(PlayEvents(s, es[..n]), Held(es[..n]))
    ensures SoundsAs(PlayEvents(s, es), Held(es)) <==> (es[n].On? ==> |Held(es[..n])| < |s|)
  {
    hide Play, SoundsAs, Next;
    PlayIff(PlayEvents(s, es[..n]), Held(es[..n]), es[n]);
  }

  lemma PlayIff(t: seq<Slot>, h: multiset<byte>, e: Event)
    requires |t| > 0 && SoundsAs(t, h)
    ensures SoundsAs(Play(t, e), Next(h, e)) <==> (e.On? ==> |h| < |t|)
  {
    hide NoteOn, NoteOff, Sounds;
    SoundsBound(t);
    match e
    case On(pitch) =>
      OnSounds(t, pitch);
      if |h| == |t| {
        assert |Next(h, e)| == if pitch == 0 then |h| else |h| + 1;
      }
    case Off(pitch) =>
      OffSounds(t, pitch);
  }

  lemma SoundsBound(s: seq<Slot>)
    ensures |Sounds(s)| <= |s|
  {
    assert |multiset(Pitches(s))| == |Pitches(s)|;
  }

  lemma {:induction false} RoomKeeps(s: seq<Slot>, es: seq<Event>)
    requires |s| > 0 && AllFree(s) && RoomAlways(es, |s|)
    ensures SoundsAs(PlayEvents(s, es), Held(es))
    decreases |es|
  {
    hide Sounds, Play, Next;
    if |es| == 0 {
      AllFreeSilent(s);
    } else {
      var n := |es| - 1;
      var front := es[..n];
      assert forall k | 0 <= k < n :: front[..k] == es[..k];
      RoomKeeps(s, front);
      EventStepIff(s, es, n);
    }
  }

  /** From an idle generator, over any run of presses and releases: it sounds exactly
      the held keys throughout if and only if every press comes while fewer keys are
      held than there are slots. */
  lemma SoundsHeldIff(s: seq<Slot>, es: seq<Event>)
    requires |s| > 0 && AllFree(s)
    ensures SoundsHeld(s, es) <==> RoomAlways(es, |s|)
  {
    hide SoundsAs, PlayEvents, Held;
    if RoomAlways(es, |s|) {
      forall k | 0 <= k <= |es| ensures SoundsAs(PlayEvents(s, es[..k]), Held(es[..k])) {
        assert forall j | 0 <= j < k :: es[..k][..j] == es[..j];
        RoomKeeps(s, es[..k]);
      }
    }
    if SoundsHeld(s, es) {
      forall k | 0 <= k < |es| ensures es[k].On? ==> |Held(es[..k])| < |s| {
        assert es[..k + 1][..k] == es[..k];
        EventStepIff(s, es[..k + 1], k);
      }
    }
  }
}
