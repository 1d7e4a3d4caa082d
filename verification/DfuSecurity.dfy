/** Secure mode of the DFU bootloader over whole runs: until a full erase has
    completed, memory is neither written nor disclosed. */
module DfuSecurity {
  import opened Spm
  import opened ChipErase
  import opened Dfu
  import opened Endpoints

  /** The states this bootloader uses of the DFU state diagram. */
  predicate KnownState(s: Dfu) {
    s.state == dfuIDLE || s.state == dfuDNLOAD_IDLE || s.state == dfuUPLOAD_IDLE || s.state == dfuERROR
  }

  lemma CommandKnown(c: Config, s: Dfu)
    requires ValidDfu(c, s) && KnownState(s)
    ensures KnownState(ProcessCommand(c, s))
  {
    hide Erase, ErasedPages, FirstUsed;
  }

  lemma ReceiveStates(s: Dfu, q: Queue)
    requires ValidMemory(s.m) && |s.data| == 5 && s.start < 65536
    ensures Receive(s, q).state == s.state || Receive(s, q).state == dfuIDLE
    ensures Receive(s, q).secure == s.secure && Receive(s, q).waitForExit == s.waitForExit
  {
    hide ProgramWords, ProgramEeprom, Discard;
  }

  lemma DownloadKnown(c: Config, s: Dfu, packets: seq<seq<byte>>)
    requires ValidDfu(c, s) && KnownState(s)
    ensures KnownState(Download(c, s, packets))
  {
    hide ProcessCommand, Receive;
    CommandKnown(c, s);
    var t := if s.waitForExit then ProcessCommand(c, s).(waitForExit := false) else s;
    if t.dataSize > 0 && |packets| > 0 {
      var loaded := LoadCommand(t, packets);
      CommandKnown(c, loaded.0);
      ReceiveStates(ProcessCommand(c, loaded.0), loaded.1);
    }
  }

  lemma StepKnown(c: Config, s: Dfu, r: Request)
    requires ValidDfu(c, s) && KnownState(s)
    ensures KnownState(Step(c, s, r).0)
  {
    hide Download;
    if r.Dnload? {
      DownloadKnown(c, s.(dataSize := r.wLength % 65536), r.packets);
    }
  }

  /** No run leaves the four states. */
  lemma {:induction false} RunKnown(c: Config, s: Dfu, rs: seq<Request>)
    requires ValidDfu(c, s) && KnownState(s)
    ensures KnownState(Run(c, s, rs))
    decreases |rs|
  {
    hide Step, ValidDfu;
    if |rs| > 0 {
      StepKnown(c, s, rs[0]);
      RunKnown(c, Step(c, s, rs[0]).0, rs[1..]);
    }
  }

  // ----- secure mode -----

  /** A bootloader that started secure and has not been erased. */
  predicate Locked(s: Dfu) {
    s.secure && !s.waitForExit && (s.state == dfuIDLE || s.state == dfuERROR)
  }

  /** Same memories, and the application has not been told to start. */
  predicate Untouched(s: Dfu, t: Dfu) {
    t.m == s.m && t.eeprom == s.eeprom && t.run == s.run
  }

  /** One command in secure mode: refused, a READ, or the full erase. */
  lemma LockedCommand(c: Config, s: Dfu)
    requires ValidDfu(c, s) && Locked(s)
    ensures var t := ProcessCommand(c, s);
            && t.waitForExit == s.waitForExit && (t.state == dfuIDLE || t.state == dfuERROR)
            && (if IsErase(s) then !t.secure && t == s.(m := ErasedPages(s.m, c.pages), secure := false)
                else Locked(t) && Untouched(s, t))
  {
    hide Erase, ErasedPages, FirstUsed;
  }

  /** One request in secure mode: memory is untouched, unless the request is the
      full erase, which blanks the application section and unlocks. */
  lemma LockedStep(c: Config, s: Dfu, r: Request)
    requires ValidDfu(c, s) && Locked(s)
    ensures var t := Step(c, s, r).0;
            if t.secure then Locked(t) && Untouched(s, t)
            else r.Dnload? && t.m == ErasedPages(s.m, c.pages) && t.eeprom == s.eeprom && t.run == s.run
  {
    hide ProcessCommand, Receive, ErasedPages;
    if r.Dnload? {
      var t := s.(dataSize := r.wLength % 65536);
      if t.dataSize > 0 && |r.packets| > 0 {
        LockedCommand(c, LoadCommand(t, r.packets).0);
      }
    }
  }

  lemma SecureNeverReturns(c: Config, s: Dfu, r: Request)
    requires ValidDfu(c, s) && !s.secure
    ensures !Step(c, s, r).0.secure
  {
    hide ProcessCommand, Receive;
    if r.Dnload? {
      var t := s.(dataSize := r.wLength % 65536);
      CommandUnlocked(c, t);
      var u := if t.waitForExit then ProcessCommand(c, t).(waitForExit := false) else t;
      if u.dataSize > 0 && |r.packets| > 0 {
        var loaded := LoadCommand(u, r.packets);
        CommandUnlocked(c, loaded.0);
        ReceiveStates(ProcessCommand(c, loaded.0), loaded.1);
      }
    }
  }

  lemma CommandUnlocked(c: Config, s: Dfu)
    requires ValidDfu(c, s) && !s.secure
    ensures !ProcessCommand(c, s).secure
  {
    hide Erase, ErasedPages, FirstUsed;
  }

  lemma {:induction false} UnlockedStays(c: Config, s: Dfu, rs: seq<Request>)
    requires ValidDfu(c, s) && !s.secure
    ensures !Run(c, s, rs).secure
    decreases |rs|
  {
    hide Step, ValidDfu;
    if |rs| > 0 {
      SecureNeverReturns(c, s, rs[0]);
      UnlockedStays(c, Step(c, s, rs[0]).0, rs[1..]);
    }
  }

  /** While a run that started locked is still secure, the state has stayed in
      {dfuIDLE, dfuERROR}, no flash or EEPROM byte has been programmed and no start
      command has been obeyed. */
  lemma {:induction false} LockedRun(c: Config, s: Dfu, rs: seq<Request>)
    requires ValidDfu(c, s) && Locked(s) && Run(c, s, rs).secure
    ensures Locked(Run(c, s, rs)) && Untouched(s, Run(c, s, rs))
    decreases |rs|
  {
    hide Step, ValidDfu, Locked;
    if |rs| > 0 {
      var t := Step(c, s, rs[0]).0;
      LockedStep(c, s, rs[0]);
      if !t.secure {
        UnlockedStays(c, t, rs[1..]);
      }
      LockedRun(c, t, rs[1..]);
    }
  }

  /** A run that started locked and is no longer secure has a first request that
      unlocked it, and that request erased the untouched application section. */
  lemma {:induction false} UnlockedByErase(c: Config, s: Dfu, rs: seq<Request>) returns (k: nat)
    requires ValidDfu(c, s) && Locked(s)
    ensures !Run(c, s, rs).secure ==>
              && k < |rs| && rs[k].Dnload? && Run(c, s, rs[..k]).secure
              && Run(c, s, rs[..k + 1]).m == ErasedPages(s.m, c.pages)
              && Run(c, s, rs[..k + 1]).eeprom == s.eeprom
    decreases |rs|
  {
    hide Step, ValidDfu, Locked, ErasedPages;
    k := 0;
    if Run(c, s, rs).secure {
      return;
    }
    assert s.secure by { LockedSecure(s); }
    var t := Step(c, s, rs[0]).0;
    LockedStep(c, s, rs[0]);
    if !t.secure {
      assert rs[..0] == [] && rs[..1][1..] == [];
      assert Run(c, s, rs[..1]) == Run(c, t, []);
    } else {
      var j := UnlockedByErase(c, t, rs[1..]);
      k := j + 1;
      assert rs[..k][1..] == rs[1..][..j] && rs[..k + 1][1..] == rs[1..][..j + 1] && rs[..k][0] == rs[0];
    }
  }

  lemma LockedSecure(s: Dfu)
    requires Locked(s)
    ensures s.secure
  {
  }

  // ----- nothing is disclosed -----

  /** Equal except for what the memories hold. */
  predicate SameOutside(s: Dfu, t: Dfu) {
    t == s.(m := t.m, eeprom := t.eeprom) && |t.m.buffer| == |s.m.buffer| && |t.m.flash| == |s.m.flash|
  }

  lemma CommandBlind(c: Config, s: Dfu, t: Dfu)
    requires ValidDfu(c, s) && ValidDfu(c, t) && SameOutside(s, t) && Locked(s)
    ensures SameOutside(ProcessCommand(c, s), ProcessCommand(c, t))
  {
    hide Erase, ErasedPages, FirstUsed;
  }

  /** In secure mode the reply to a request does not depend on the memories. */
  lemma StepBlind(c: Config, s: Dfu, t: Dfu, r: Request)
    requires ValidDfu(c, s) && ValidDfu(c, t) && SameOutside(s, t) && Locked(s)
    ensures Step(c, s, r).1 == Step(c, t, r).1 && SameOutside(Step(c, s, r).0, Step(c, t, r).0)
  {
    hide ProcessCommand, Receive, Cells;
    if r.Dnload? {
      var s1, t1 := s.(dataSize := r.wLength % 65536), t.(dataSize := r.wLength % 65536);
      if s1.dataSize > 0 && |r.packets| > 0 {
        var s2, t2 := LoadCommand(s1, r.packets).0, LoadCommand(t1, r.packets).0;
        CommandBlind(c, s2, t2);
        LockedCommand(c, s2);
        LockedCommand(c, t2);
      }
    }
  }

  /** Two devices that differ only in their memories cannot be told apart by any
      run that stays secure. */
  lemma {:induction false} LockedRunBlind(c: Config, s: Dfu, t: Dfu, rs: seq<Request>)
    requires ValidDfu(c, s) && ValidDfu(c, t) && SameOutside(s, t) && Locked(s) && Run(c, s, rs).secure
    ensures Replies(c, s, rs) == Replies(c, t, rs)
    decreases |rs|
  {
    hide Step, ValidDfu, Locked, SameOutside;
    if |rs| > 0 {
      var s1 := Step(c, s, rs[0]).0;
      StepBlind(c, s, t, rs[0]);
      LockedStep(c, s, rs[0]);
      if !s1.secure {
        UnlockedStays(c, s1, rs[1..]);
      }
      LockedRunBlind(c, s1, Step(c, t, rs[0]).0, rs[1..]);
    }
  }

  // ----- leaving the bootloader -----

  /** The last command was a start by jump, complete. */
  predicate StartByJump(s: Dfu) {
    |s.data| == 5 && s.command == WRITE && s.data[0] == 3 && s.data[1] != 0 && s.dataSize == 0
  }

  lemma CommandStarts(c: Config, s: Dfu)
    requires ValidDfu(c, s)
    ensures var t := ProcessCommand(c, s);
            && (t.run <==> s.run && !(!s.secure && StartByJump(s)))
            && t.command == s.command && t.data == s.data && t.dataSize == s.dataSize
  {
    hide Erase, ErasedPages, FirstUsed;
  }

  lemma ReceiveKeepsCommand(s: Dfu, q: Queue)
    requires ValidMemory(s.m) && |s.data| == 5 && s.start < 65536
    ensures var t := Receive(s, q);
            t.run == s.run && t.command == s.command && t.data == s.data && t.dataSize == s.dataSize
  {
    hide ProgramWords, ProgramEeprom, Discard;
  }

  lemma DownloadStarts(c: Config, s: Dfu, packets: seq<seq<byte>>)
    requires ValidDfu(c, s) && s.run && !Download(c, s, packets).run
    ensures StartByJump(Download(c, s, packets))
  {
    hide ProcessCommand, Receive, LoadCommand;
    CommandStarts(c, s);
    var t := if s.waitForExit then ProcessCommand(c, s).(waitForExit := false) else s;
    if t.dataSize > 0 && |packets| > 0 {
      LoadKeepsRun(t, packets);
      var loaded := LoadCommand(t, packets);
      CommandStarts(c, loaded.0);
      ReceiveKeepsCommand(ProcessCommand(c, loaded.0), loaded.1);
    }
  }

  lemma LoadKeepsRun(s: Dfu, packets: seq<seq<byte>>)
    requires |s.data| == 5 && |packets| > 0
    ensures LoadCommand(s, packets).0.run == s.run
  {
  }

  lemma StepStarts(c: Config, s: Dfu, r: Request)
    requires ValidDfu(c, s) && s.run && !Step(c, s, r).0.run
    ensures r.Dnload? && StartByJump(Step(c, s, r).0)
  {
    hide Download;
    if r.Dnload? {
      DownloadStarts(c, s.(dataSize := r.wLength % 65536), r.packets);
    }
  }

  /** A run in which the run flag has dropped has a download that dropped it, and
      the command it ended with is a complete start by jump. */
  lemma {:induction false} DownMeansStart(c: Config, s: Dfu, rs: seq<Request>) returns (k: nat)
    requires ValidDfu(c, s) && s.run && !Run(c, s, rs).run
    ensures k < |rs| && rs[k].Dnload? && Run(c, s, rs[..k]).run
    ensures StartByJump(Run(c, s, rs[..k + 1]))
    decreases |rs|
  {
    hide Step, ValidDfu, StartByJump;
    var t := Step(c, s, rs[0]).0;
    if !t.run {
      StepStarts(c, s, rs[0]);
      k := 0;
      assert rs[..0] == [] && rs[..1][1..] == [];
      assert Run(c, s, rs[..1]) == Run(c, t, []);
    } else {
      var j := DownMeansStart(c, t, rs[1..]);
      k := j + 1;
      assert rs[..k][1..] == rs[1..][..j] && rs[..k + 1][1..] == rs[1..][..j + 1] && rs[..k][0] == rs[0];
    }
  }
}
