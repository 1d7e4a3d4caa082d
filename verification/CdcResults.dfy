/** What a host gets from the CDC bootloader: operations survive the wire. */
module CdcResults {
  import opened Spm
  import opened Chunks
  import opened Endpoints
  import opened Cdc

  // ----- operations over the wire -----

  lemma FetchHeader(q: Queue, e: seq<byte>)
    requires |e| >= 4 && e <= Supply(q)
    ensures Fetch(q).0 == e[0] && FetchAll(Fetch(q).1, 3).0 == [e[1], e[2], e[3]]
    ensures FetchAll(Fetch(q).1, 3).1 == FetchAll(q, 4).1
  {
    hide Fetch, FetchAll, Supply;
    FetchInOrder(q);
    assert Supply(q)[1..][..3] == [e[1], e[2], e[3]];
    FetchAllInOrder(Fetch(q).1, 3);
    FetchFirst(q);
    FetchAllSplit(q, 1, 3);
  }

  lemma FetchFirst(q: Queue)
    ensures FetchAll(q, 1).1 == Fetch(q).1
  {
    hide Fetch;
    assert FetchAll(q, 0).1 == q;
  }

  /** A device that receives the encoding of an operation, in any packets,
      performs that operation and reads exactly its bytes. */
  lemma ReactDecodes(c: Config, s: Cdc, q: Queue, op: Request)
    requires ValidCdc(s) && ValidRequest(op) && Encode(op) <= Supply(q)
    ensures var o := Perform(c, s, op);
            React(c, s, q) == Reaction(o.0, FetchAll(q, |Encode(op)|).1, o.1)
  {
    hide Fetch, FetchAll, Supply, Perform;
    var all, e := Supply(q), Encode(op);
    FetchInOrder(q);
    FetchFirst(q);
    var rest := Fetch(q).1;
    match op
    case Exit =>
    case SetAddress(hi, lo) =>
      FetchAllInOrder(rest, 2);
      FetchAllSplit(q, 1, 2);
      assert all[1..][..2] == [hi, lo];
    case EraseAll =>
    case WriteBlock(kind, bytes) =>
      FetchHeader(q, e);
      FetchAllInOrder(q, 4);
      assert all[4..][..|bytes|] == bytes;
      FetchAllInOrder(FetchAll(q, 4).1, |bytes|);
      FetchAllSplit(q, 4, |bytes|);
    case ReadBlock(kind, count) =>
      FetchHeader(q, e);
  }

  /** Operations in turn, with the response to each. */
  function PerformAll(c: Config, s: Cdc, ops: seq<Request>): (r: (Cdc, seq<seq<byte>>))
    requires ValidCdc(s)
    ensures ValidCdc(r.0) && |r.1| == |ops|
    decreases |ops|
  {
    if |ops| == 0 then (s, [])
    else
      var o := Perform(c, s, ops[0]);
      var rest := PerformAll(c, o.0, ops[1..]);
      (rest.0, [o.1] + rest.1)
  }

  /** An operation as the host may send it: cut into packets, the last of which
      carries data. */
  predicate Carries(ps: seq<seq<byte>>, op: Request) {
    ValidRequest(op) && |ps| > 0 && EndsWithData(ps) && Flatten(ps) == Encode(op)
  }

  predicate CarriesAll(transfers: seq<seq<seq<byte>>>, ops: seq<Request>) {
    |transfers| == |ops| && forall i | 0 <= i < |ops| :: Carries(transfers[i], ops[i])
  }

  /** The packets of all responses. */
  function Responses(replies: seq<seq<byte>>): (ps: seq<seq<byte>>)
    decreases |replies|
  {
    if |replies| == 0 then [] else Packets(replies[0]) + Responses(replies[1..])
  }

  lemma TaskPerforms(c: Config, s: Cdc, ps: seq<seq<byte>>, rest: seq<seq<byte>>, op: Request, sent: seq<seq<byte>>)
    requires ValidCdc(s) && Carries(ps, op)
    ensures var o := Perform(c, s, op);
            Task(c, Station(s, Queue([], ps + rest), Sender([], sent)))
            == Station(o.0, Queue([], rest), Sender([], sent + Packets(o.1)))
  {
    hide React, Fetch, FetchAll, Perform, WriteAll, EndTransfer, Packets, Encode;
    var q := Advance(Queue([], ps + rest));
    assert (ps + rest)[1..] == ps[1..] + rest;
    assert Flatten(ps) == ps[0] + Flatten(ps[1..]);
    FlattenJoin(ps[1..], rest);
    assert Supply(q) == Encode(op) + Flatten(rest);
    ReactDecodes(c, s, q, op);
    FetchAllExact(ps[0], ps[1..], rest);
    TransferPackets(sent, Perform(c, s, op).1);
  }

  lemma {:induction false} FlattenJoin<T>(a: seq<seq<T>>, b: seq<seq<T>>)
    ensures Flatten(a + b) == Flatten(a) + Flatten(b)
    decreases |a|
  {
    FlattenSplit(a + b, |a|);
    assert (a + b)[..|a|] == a && (a + b)[|a|..] == b;
  }

  lemma PerformKeepsRunning(c: Config, s: Cdc, op: Request)
    requires ValidCdc(s)
    ensures Perform(c, s, op).0.run == (s.run && !op.Exit?)
  {
  }

  predicate NoExit(ops: seq<Request>) {
    forall i | 0 <= i < |ops| :: !ops[i].Exit?
  }

  /** A session whose first packets carry some operations performs them in order,
      answers each with one transfer, and goes on with the packets behind them. */
  lemma {:induction false} SessionAdvances(
    c: Config, s: Cdc, transfers: seq<seq<seq<byte>>>, ops: seq<Request>, rest: seq<seq<byte>>, sent: seq<seq<byte>>)
    requires ValidCdc(s) && s.run && CarriesAll(transfers, ops) && NoExit(ops)
    ensures var o := PerformAll(c, s, ops);
            && o.0.run
            && Session(c, Station(s, Queue([], Flatten(transfers) + rest), Sender([], sent)))
               == Session(c, Station(o.0, Queue([], rest), Sender([], sent + Responses(o.1))))
    decreases |ops|
  {
    hide Task, Perform, Packets;
    if |ops| == 0 {
      assert sent + [] == sent && [] + rest == rest;
    } else {
      var ps, more := transfers[0], Flatten(transfers[1..]) + rest;
      assert Carries(ps, ops[0]) && Flatten(transfers) + rest == ps + more;
      TaskPerforms(c, s, ps, more, ops[0], sent);
      PerformKeepsRunning(c, s, ops[0]);
      var o := Perform(c, s, ops[0]);
      SessionAdvances(c, o.0, transfers[1..], ops[1..], rest, sent + Packets(o.1));
      var later := PerformAll(c, o.0, ops[1..]).1;
      assert ([o.1] + later)[1..] == later;
      assert sent + Packets(o.1) + Responses(later) == sent + (Packets(o.1) + Responses(later));
    }
  }

  /** Sending operations in any packets has exactly the effect of performing them
      in order, and the responses come back as one transfer each. */
  lemma SessionPerforms(c: Config, s: Cdc, transfers: seq<seq<seq<byte>>>, ops: seq<Request>, sent: seq<seq<byte>>)
    requires ValidCdc(s) && s.run && CarriesAll(transfers, ops) && NoExit(ops)
    ensures var o := PerformAll(c, s, ops);
            Session(c, Station(s, Queue([], Flatten(transfers)), Sender([], sent)))
            == Station(o.0, Queue([], []), Sender([], sent + Responses(o.1)))
  {
    hide PerformAll, Responses, Flatten, Task;
    SessionAdvances(c, s, transfers, ops, [], sent);
    assert Flatten(transfers) + [] == Flatten(transfers);
  }

  /** An exit command behind them is acknowledged and ends the session; packets
      after it are not read. */
  lemma SessionExits(
    c: Config, s: Cdc, transfers: seq<seq<seq<byte>>>, ops: seq<Request>,
    last: seq<seq<byte>>, rest: seq<seq<byte>>, sent: seq<seq<byte>>)
    requires ValidCdc(s) && s.run && CarriesAll(transfers, ops) && NoExit(ops) && Carries(last, Exit)
    ensures var o := PerformAll(c, s, ops);
            Session(c, Station(s, Queue([], Flatten(transfers) + (last + rest)), Sender([], sent)))
            == Station(o.0.(run := false), Queue([], rest), Sender([], sent + Responses(o.1) + Packets([DONE])))
  {
    hide PerformAll, Responses, Flatten, Task, Packets, Carries;
    SessionAdvances(c, s, transfers, ops, last + rest, sent);
    var o := PerformAll(c, s, ops);
    assert |last| > 0 by { CarriesSome(last); }
    TaskPerforms(c, o.0, last, rest, Exit, sent + Responses(o.1));
  }

  lemma CarriesSome(ps: seq<seq<byte>>)
    requires Carries(ps, Exit)
    ensures |ps| > 0
  {
  }

  lemma {:induction false} PerformAppend(c: Config, s: Cdc, a: seq<Request>, b: seq<Request>)
    requires ValidCdc(s)
    ensures var x := PerformAll(c, s, a);
            var y := PerformAll(c, x.0, b);
            PerformAll(c, s, a + b) == (y.0, x.1 + y.1)
    decreases |a|
  {
    hide Perform;
    if |a| == 0 {
      assert a + b == b;
      assert [] + PerformAll(c, s, b).1 == PerformAll(c, s, b).1;
    } else {
      var o := Perform(c, s, a[0]);
      assert (a + b)[0] == a[0] && (a + b)[1..] == a[1..] + b;
      PerformAppend(c, o.0, a[1..], b);
      var x := PerformAll(c, o.0, a[1..]);
      var y := PerformAll(c, x.0, b);
      assert [o.1] + (x.1 + y.1) == [o.1] + x.1 + y.1;
    }
  }
}
