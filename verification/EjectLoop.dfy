/** When the mass-storage bootloader hands over to the application: the main
    loop condition with its tick counter, and the START STOP UNIT command. */
module EjectLoop {
  import opened Spm

  const TICK_LIMIT: nat := 255

  /** What one iteration of the main loop receives: no SCSI command, a START
      STOP UNIT command with its byte 4, or another command. */
  datatype Event = Idle | StartStop(flags: byte) | OtherCommand

  /** RunBootloader and TicksSinceLastCommand. */
  datatype Loop = Loop(run: bool, ticks: nat)

  predicate IsEject(flags: byte) {
    flags % 4 == 2
  }

  /** LOEJ is bit 1 of the byte and START bit 0: eject asks for the first alone. */
  lemma EjectBits(flags: byte)
    ensures IsEject(flags) <==> And(flags, 2) == 2 && And(flags, 1) == 0
  {
    assert And(flags / 2, 0) == 0;
    assert And(flags / 2, 1) == (if flags / 2 % 2 == 1 then 1 else 0) + 2 * And(flags / 4, 0);
    assert And(flags, 2) == 2 * And(flags / 2, 1);
  }

  /** The body: a command is decoded, then the callback clears the counter. */
  function Body(s: Loop, e: Event): (r: Loop) {
    match e
    case Idle => s
    case StartStop(flags) => Loop(!IsEject(flags), 0)
    case OtherCommand => Loop(s.run, 0)
  }

  // ----- the history a host sees -----

  /** The latest START STOP UNIT among the events was an eject. */
  predicate Ejected(es: seq<Event>)
    decreases |es|
  {
    |es| > 0 &&
    var last := es[|es| - 1];
    if last.StartStop? then IsEject(last.flags) else Ejected(es[..|es| - 1])
  }

  /** Iterations since the last command. */
  function Quiet(es: seq<Event>): (n: nat)
    ensures n <= |es|
    decreases |es|
  {
    if |es| == 0 || !es[|es| - 1].Idle? then 0 else 1 + Quiet(es[..|es| - 1])
  }

  /** Ejected, with exactly 255 quiet iterations since the last command. */
  predicate ReadyToExit(es: seq<Event>) {
    Ejected(es) && Quiet(es) == TICK_LIMIT
  }

  /** The loop after n iterations that did not exit. */
  predicate LoopState(s: Loop, es: seq<Event>) {
    s.run == !Ejected(es) && s.ticks == (if s.run then 0 else Quiet(es))
  }

  lemma BodyKeeps(s: Loop, es: seq<Event>, e: Event)
    requires s.run == !Ejected(es) && s.ticks == (if s.run then 0 else Quiet(es) + 1)
    ensures LoopState(Body(s, e), es + [e])
  {
    assert (es + [e])[..|es|] == es;
  }

  /** The main loop of the bootloader: it leaves at the first moment the volume
      is ejected and 255 iterations have passed since the last command, and at
      no other. */
  method MainLoop(events: seq<Event>) returns (iterations: nat, exited: bool)
    ensures iterations <= |events|
    ensures exited ==> ReadyToExit(events[..iterations])
    ensures !exited ==> iterations == |events| && !ReadyToExit(events)
    ensures forall k | 0 <= k < iterations :: !ReadyToExit(events[..k])
  {
    var runBootloader, ticksSinceLastCommand: byte := true, 0;
    iterations := 0;
    exited := false;
    while true
      invariant 0 <= iterations <= |events| && !exited
      invariant LoopState(Loop(runBootloader, ticksSinceLastCommand as nat), events[..iterations])
      invariant forall k | 0 <= k < iterations :: !ReadyToExit(events[..k])
      decreases |events| - iterations
    {
      if !runBootloader {
        var again := ticksSinceLastCommand < 0xFF;
        ticksSinceLastCommand := if ticksSinceLastCommand == 255 then 0 else ticksSinceLastCommand + 1;
        if !again {
          exited := true;
          return;
        }
      }
      if iterations == |events| {
        assert events[..iterations] == events;
        return;
      }
      ghost var before := Loop(runBootloader, ticksSinceLastCommand as nat);
      BodyKeeps(before, events[..iterations], events[iterations]);
      match events[iterations] {
        case Idle =>
        case StartStop(flags) =>
          runBootloader := flags % 4 != 2;
          ticksSinceLastCommand := 0;
        case OtherCommand =>
          ticksSinceLastCommand := 0;
      }
      assert events[..iterations + 1] == events[..iterations] + [events[iterations]];
      iterations := iterations + 1;
    }
  }
}
