/** The DFU vendor commands byte by byte: which ones do anything, what the read and
    start commands lead to, and what an upload leaves behind. */
module DfuCommands {
  import opened Spm
  import opened Endpoints
  import opened Dfu
  import opened DfuProgramming
  import opened DfuErase
  import opened DfuEeprom

  // ----- a command in one packet -----

  /** A download of one packet of at most six bytes and nothing behind it. */
  function Short(packet: seq<byte>): (r: Request) {
    Dnload(|packet|, [packet])
  }

  /** Short parameters are stored over the old ones. */
  function WithParameters(s: Dfu, packet: seq<byte>): (r: Dfu)
    requires |s.data| == 5 && 1 <= |packet| <= 6
    ensures |r.data| == 5
  {
    s.(command := packet[0], data := packet[1..] + s.data[|packet| - 1..], dataSize := 0)
  }

  lemma ShortLoads(s: Dfu, packet: seq<byte>)
    requires |s.data| == 5 && 1 <= |packet| <= 6
    ensures LoadCommand(s.(dataSize := |packet|), [packet]).0 == WithParameters(s, packet)
  {
    assert Tail(packet) == packet[1..] && packet[1..][..|packet| - 1] == packet[1..];
  }

  lemma ShortStep(c: Config, s: Dfu, packet: seq<byte>)
    requires ValidDfu(c, s) && !s.waitForExit && 1 <= |packet| <= 6
    ensures var u := ProcessCommand(c, WithParameters(s, packet));
            Step(c, s, Short(packet)) == (u.(state := Idled(u.state)), [])
  {
    hide LoadCommand, ProcessCommand, WithParameters, ProgramWords, ProgramEeprom, Discard;
    ShortLoads(s, packet);
    StepDownloads(c, s, Short(packet));
    CommandKeepsSize(c, WithParameters(s, packet));
    DownloadSilent(c, s, Short(packet));
    assert WithParameters(s, packet).dataSize == 0 by { ParametersSize(s, packet); }
  }

  lemma ParametersSize(s: Dfu, packet: seq<byte>)
    requires |s.data| == 5 && 1 <= |packet| <= 6
    ensures WithParameters(s, packet).dataSize == 0
  {
  }

  lemma CommandKeepsSize(c: Config, s: Dfu)
    requires ValidDfu(c, s)
    ensures ProcessCommand(c, s).dataSize == s.dataSize
  {
    hide Erase, FirstUsed;
  }

  /** The commands with an effect, by command byte and first two parameters: program
      flash or EEPROM; read them or blank check; start the application or erase; read
      information or the signature; select a 64 KB page. */
  predicate Meaningful(command: byte, d0: byte, d1: byte) {
    || (command == 1 && d0 <= 1)
    || (command == 3 && d0 <= 2)
    || (command == 4 && (d0 == 3 || (d0 == 0 && d1 == 255)))
    || (command == 5 && d0 <= 1)
    || (command == 6 && d0 == 3 && d1 == 0)
  }

  /** Any other command to an unlocked bootloader does nothing; it only ends a
      download under way. */
  lemma OthersIgnored(c: Config, s: Dfu, packet: seq<byte>)
    requires ValidDfu(c, s) && !s.secure && !s.waitForExit && 3 <= |packet| <= 6
    requires !Meaningful(packet[0], packet[1], packet[2])
    ensures var o := Step(c, s, Short(packet));
            && o.0 == s.(command := o.0.command, data := o.0.data, dataSize := 0, state := Idled(s.state)) && o.1 == []
  {
    ShortStep(c, s, packet);
    assert WithParameters(s, packet).data[0] == packet[1] && WithParameters(s, packet).data[1] == packet[2];
  }

  // ----- reading information -----

  lemma InfoLoads(c: Config, s: Dfu, d0: byte, d1: byte)
    requires ValidDfu(c, s) && !s.waitForExit && d0 <= 1
    ensures var t := Step(c, s, Short([5, d0, d1])).0;
            && t.response == c.info(d0, d1) && t.data[0] == d0 && t.state == Idled(s.state) && t.start == s.start
            && t.m == s.m && t.eeprom == s.eeprom && t.secure == s.secure && !t.waitForExit
  {
    ShortStep(c, s, [5, d0, d1]);
  }

  /** Information is read with a READ command and an upload, from a locked bootloader
      too. Behind a failed blank check or a refused command, the second kind of
      information is answered with an address; in the middle of a read-back the upload
      goes on with that. */
  lemma InfoAnswers(c: Config, s: Dfu, d0: byte, d1: byte, w: nat)
    requires ValidDfu(c, s) && !s.waitForExit && d0 <= 1 && s.state != dfuUPLOAD_IDLE
    ensures Replies(c, s, [Short([5, d0, d1]), Upload(w)])
            == [[], if s.state == dfuERROR && d0 == 1 then [(s.start % 256) as byte, (s.start / 256) as byte]
                    else [c.info(d0, d1)]]
  {
    hide Step, ValidDfu, Short;
    InfoLoads(c, s, d0, d1);
    var t := Step(c, s, Short([5, d0, d1])).0;
    assert |t.data| == 5 && t.start < 65536 by { Bounds(c, t); }
    IdleUpload(c, t, w);
    DownloadSilent(c, s, Short([5, d0, d1])) by { ShortIs([5, d0, d1]); }
    RepliesTwo(c, s, Short([5, d0, d1]), Upload(w));
  }

  lemma ShortIs(packet: seq<byte>)
    ensures Short(packet).Dnload?
  {
  }

  lemma Bounds(c: Config, s: Dfu)
    requires ValidDfu(c, s)
    ensures |s.data| == 5 && s.start < 65536 && s.end < 65536
  {
  }

  lemma IdleUpload(c: Config, s: Dfu, w: nat)
    requires ValidDfu(c, s) && s.state != dfuUPLOAD_IDLE
    ensures Step(c, s, Upload(w))
            == (s.(dataSize := w % 65536),
                if s.state == dfuERROR && s.data[0] == 1 then [(s.start % 256) as byte, (s.start / 256) as byte]
                else [s.response])
  {
  }

  lemma RepliesTwo(c: Config, s: Dfu, x: Request, y: Request)
    requires ValidDfu(c, s)
    ensures Replies(c, s, [x, y]) == [Step(c, s, x).1, Step(c, Step(c, s, x).0, y).1]
  {
    hide Step, ValidDfu;
    var t := Step(c, s, x).0;
    assert [x, y][1..] == [y] && [y][1..] == [];
    assert Replies(c, t, [y]) == [Step(c, t, y).1] + Replies(c, Step(c, t, y).0, []);
    assert [Step(c, t, y).1] + [] == [Step(c, t, y).1];
  }

  /** A signature read in the middle of a read-back: the first upload is empty and
      ends the read-back, the second brings the signature. */
  lemma InterruptedReadBack(c: Config, s: Dfu, d1: byte, w: nat)
    requires ValidDfu(c, s) && !s.waitForExit && s.state == dfuUPLOAD_IDLE
    ensures var t := Step(c, s, Short([5, 1, d1])).0;
            Replies(c, t, [Upload(w), Upload(w)]) == [[], [c.info(1, d1)]]
  {
    hide Step, ValidDfu, Short;
    InfoLoads(c, s, 1, d1);
    var t := Step(c, s, Short([5, 1, d1])).0;
    assert |t.data| == 5 by { Bounds(c, t); }
    OtherUpload(c, t, w);
    IdleUpload(c, Step(c, t, Upload(w)).0, w);
    RepliesTwo(c, t, Upload(w), Upload(w));
  }

  lemma OtherUpload(c: Config, s: Dfu, w: nat)
    requires ValidDfu(c, s) && s.state == dfuUPLOAD_IDLE && s.data[0] == 1
    ensures Step(c, s, Upload(w)) == (s.(dataSize := w % 65536, state := dfuIDLE), [])
  {
  }

  // ----- starting the application -----

  /** The start command with more announced than its packet holds: the bootloader only
      notes it, and the empty download behind it makes it leave, unless the start is by
      watchdog. */
  lemma StartRuns(c: Config, s: Dfu, mode: byte, w: nat)
    requires ValidDfu(c, s) && !s.secure && !s.waitForExit && s.state != dfuDNLOAD_IDLE && 3 < w < 65536
    ensures var r := Dnload(w, [[4, 3, mode]]);
            && Run(c, s, [r]).run == s.run
            && Run(c, s, [r, Dnload(0, [])]).run == (s.run && mode == 0)
            && !Run(c, s, [r, Dnload(0, [])]).waitForExit
            && Run(c, s, [r, Dnload(0, [])]).m == s.m
  {
    hide Step, ValidDfu;
    var r := Dnload(w, [[4, 3, mode]]);
    var t := Step(c, s, r).0;
    StartNoted(c, s, mode, w);
    assert |t.data| == 5 by { Bounds(c, t); }
    StartDone(c, t);
    RunTwo(c, s, r, Dnload(0, []));
    assert [r][1..] == [];
    assert Run(c, s, [r]) == Run(c, t, []);
  }

  lemma StartNoted(c: Config, s: Dfu, mode: byte, w: nat)
    requires ValidDfu(c, s) && !s.secure && !s.waitForExit && s.state != dfuDNLOAD_IDLE && 3 < w < 65536
    ensures var t := Step(c, s, Dnload(w, [[4, 3, mode]])).0;
            && t.waitForExit && t.run == s.run && t.command == 4 && t.data[0] == 3 && t.data[1] == mode
            && !t.secure && t.m == s.m
  {
    hide ProgramWords, ProgramEeprom, Discard;
    var packet: seq<byte> := [4, 3, mode];
    assert Tail(packet) == [3, mode];
  }

  lemma StartDone(c: Config, s: Dfu)
    requires ValidDfu(c, s) && !s.secure && s.waitForExit && s.command == 4 && s.data[0] == 3
    ensures var t := Step(c, s, Dnload(0, [])).0;
            t.run == (s.run && s.data[1] == 0) && !t.waitForExit && t.m == s.m
  {
  }

  /** With nothing more announced it leaves at once. */
  lemma StartNow(c: Config, s: Dfu, mode: byte)
    requires ValidDfu(c, s) && !s.secure && !s.waitForExit
    ensures var t := Step(c, s, Short([4, 3, mode])).0;
            t.run == (s.run && mode == 0) && t.waitForExit && t.m == s.m && t.eeprom == s.eeprom
  {
    ShortStep(c, s, [4, 3, mode]);
  }

  // ----- requests without an effect -----

  /** Requests that ask, are unknown, are for someone else, or whose data never
      comes. */
  predicate Idle(r: Request) {
    r.Unknown? || r.NotForUs? || r.GetStatus? || r.GetState? || (r.Dnload? && r.wLength % 65536 > 0 && r.packets == [])
  }

  lemma IdleKeeps(c: Config, s: Dfu, r: Request)
    requires ValidDfu(c, s) && !s.waitForExit && Idle(r)
    ensures var o := Step(c, s, r);
            o.0 == s.(dataSize := o.0.dataSize) && (o.1 != [] ==> r.GetStatus? || r.GetState?)
  {
  }

  /** A download without data only ends a download under way. */
  lemma EmptyDownload(c: Config, s: Dfu, packets: seq<seq<byte>>)
    requires ValidDfu(c, s) && !s.waitForExit
    ensures Step(c, s, Dnload(0, packets)) == (s.(dataSize := 0, state := Idled(s.state)), [])
  {
  }

  // ----- what an upload leaves -----

  /** Display, upload, upload: the range once, then the response byte; the address
      counter has moved to the last byte of a flash range, behind that of an EEPROM
      range, and nothing is changed. */
  lemma FlashUploadEnds(c: Config, s: Dfu, start: nat, n: nat, w: nat)
    requires ValidDfu(c, s) && !s.secure && !s.waitForExit
    requires 0 < n < 65536 && n % 2 == 0 && start + n <= 65536
    ensures var display := Dnload(6, [Block(DISP_DATA, start, start + n - 1)]);
            var t := Run(c, s, [display, Upload(w)]);
            && t.state == dfuIDLE && t.start == start + n - 1 && t.m == s.m
            && Step(c, t, Upload(w)).1 == [t.response]
  {
    hide Step, Block, ValidDfu;
    var display := Dnload(6, [Block(DISP_DATA, start, start + n - 1)]);
    DisplayArms(c, s, start, start + n - 1);
    var u := Step(c, s, display).0;
    assert |u.data| == 5 by { Bounds(c, u); }
    UploadMoves(c, u, w);
    RunTwo(c, s, display, Upload(w));
    IdleUpload(c, Step(c, u, Upload(w)).0, w);
  }

  lemma UploadMoves(c: Config, s: Dfu, w: nat)
    requires ValidDfu(c, s) && s.state == dfuUPLOAD_IDLE
    ensures var t := Step(c, s, Upload(w)).0;
            && t.state == dfuIDLE && t.m == s.m && t.eeprom == s.eeprom
            && (s.data[0] == 0 ==> t.start == s.end)
            && (s.data[0] == 2 ==> t.start == (s.end + 1) % 65536)
  {
    hide Cells;
  }

  lemma EepromUploadEnds(c: Config, s: Dfu, start: nat, n: nat, w: nat)
    requires ValidDfu(c, s) && !s.secure && !s.waitForExit && 0 < n && start + n <= 65536
    ensures var display := Dnload(6, [EepromBlock(DISP_DATA, 2, start, start + n - 1)]);
            var t := Run(c, s, [display, Upload(w)]);
            && t.state == dfuIDLE && t.start == (start + n) % 65536 && t.eeprom == s.eeprom
            && Step(c, t, Upload(w)).1 == [t.response]
  {
    hide Step, EepromBlock, ValidDfu;
    var display := Dnload(6, [EepromBlock(DISP_DATA, 2, start, start + n - 1)]);
    DisplayOpens(c, s, start, start + n - 1);
    var u := Step(c, s, display).0;
    assert |u.data| == 5 by { Bounds(c, u); }
    UploadMoves(c, u, w);
    RunTwo(c, s, display, Upload(w));
    IdleUpload(c, Step(c, u, Upload(w)).0, w);
  }
}
