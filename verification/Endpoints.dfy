/** USB endpoints as packet queues. */
module Endpoints {
  import opened Spm
  import opened Chunks

  /** The packet being read and those still to come. */
  datatype Queue = Queue(bank: seq<byte>, pending: seq<seq<byte>>)

  /** Clear the bank and take the next packet; without one the host is gone. */
  function Advance(q: Queue): (r: Queue) {
    if |q.pending| == 0 then Queue([], []) else Queue(q.pending[0], q.pending[1..])
  }

  /** The bytes still to come. */
  function Supply(q: Queue): (bs: seq<byte>) {
    q.bank + Flatten(q.pending)
  }

  // ----- byte-wise reception -----

  /** FetchNextCommandByte: empty banks are cleared until a packet with data
      arrives; zero when the host is gone. */
  function Fetch(q: Queue): (r: (byte, Queue))
    ensures |r.1.pending| <= |q.pending|
    decreases |q.pending|
  {
    if |q.bank| > 0 then (q.bank[0], Queue(q.bank[1..], q.pending))
    else if |q.pending| == 0 then (0, Queue([], []))
    else Fetch(Advance(q))
  }

  /** However the stream is cut into packets, bytes arrive in order. */
  lemma {:induction false} FetchInOrder(q: Queue)
    requires |Supply(q)| > 0
    ensures Fetch(q).0 == Supply(q)[0] && Supply(Fetch(q).1) == Supply(q)[1..]
    decreases |q.pending|
  {
    if |q.bank| == 0 {
      assert |q.pending| > 0;
      assert Supply(Advance(q)) == Supply(q);
      FetchInOrder(Advance(q));
    } else {
      assert Supply(q)[1..] == q.bank[1..] + Flatten(q.pending);
    }
  }

  function FetchAll(q: Queue, n: nat): (r: (seq<byte>, Queue))
    ensures |r.0| == n && |r.1.pending| <= |q.pending|
    decreases n
  {
    if n == 0 then ([], q)
    else
      var front := FetchAll(q, n - 1);
      var last := Fetch(front.1);
      (front.0 + [last.0], last.1)
  }

  /** n fetched bytes are the first n of the concatenated packets. */
  lemma {:induction false} FetchAllInOrder(q: Queue, n: nat)
    requires n <= |Supply(q)|
    ensures FetchAll(q, n).0 == Supply(q)[..n] && Supply(FetchAll(q, n).1) == Supply(q)[n..]
    decreases n
  {
    hide Fetch, Supply;
    if n > 0 {
      FetchAllInOrder(q, n - 1);
      FetchInOrder(FetchAll(q, n - 1).1);
      assert Supply(q)[n - 1..][1..] == Supply(q)[n..];
    }
  }

  lemma {:induction false} FetchAllSplit(q: Queue, n: nat, k: nat)
    ensures var a := FetchAll(q, n);
            var b := FetchAll(a.1, k);
            FetchAll(q, n + k) == (a.0 + b.0, b.1)
    decreases k
  {
    hide Fetch;
    if k > 0 {
      FetchAllSplit(q, n, k - 1);
      var a := FetchAll(q, n);
      var b, next := FetchAll(a.1, k - 1), FetchAll(a.1, k);
      assert a.0 + next.0 == (a.0 + b.0) + [Fetch(b.1).0];
    } else {
      assert FetchAll(q, n).0 + [] == FetchAll(q, n).0;
    }
  }

  /** A run of packets whose last one, if any, carries data. */
  predicate EndsWithData(ps: seq<seq<byte>>) {
    |ps| > 0 ==> |ps[|ps| - 1]| > 0
  }

  lemma {:induction false} FetchWithin(bank: seq<byte>, ps: seq<seq<byte>>, rest: seq<seq<byte>>)
    returns (bank': seq<byte>, ps': seq<seq<byte>>)
    requires EndsWithData(ps) && |bank + Flatten(ps)| > 0
    ensures Fetch(Queue(bank, ps + rest)).1 == Queue(bank', ps' + rest) && EndsWithData(ps')
    ensures bank' + Flatten(ps') == (bank + Flatten(ps))[1..]
    decreases |ps|
  {
    if |bank| > 0 {
      bank', ps' := bank[1..], ps;
      assert (bank + Flatten(ps))[1..] == bank[1..] + Flatten(ps);
    } else {
      assert |ps| > 0 && (ps + rest)[1..] == ps[1..] + rest && bank + Flatten(ps) == ps[0] + Flatten(ps[1..]);
      bank', ps' := FetchWithin(ps[0], ps[1..], rest);
    }
  }

  lemma {:induction false} FetchAllWithin(bank: seq<byte>, ps: seq<seq<byte>>, rest: seq<seq<byte>>, n: nat)
    returns (bank': seq<byte>, ps': seq<seq<byte>>)
    requires EndsWithData(ps) && n <= |bank + Flatten(ps)|
    ensures FetchAll(Queue(bank, ps + rest), n).1 == Queue(bank', ps' + rest) && EndsWithData(ps')
    ensures bank' + Flatten(ps') == (bank + Flatten(ps))[n..]
    decreases n
  {
    hide Fetch, Flatten, EndsWithData;
    if n == 0 {
      bank', ps' := bank, ps;
    } else {
      bank', ps' := FetchAllWithin(bank, ps, rest, n - 1);
      assert (bank + Flatten(ps))[n - 1..][1..] == (bank + Flatten(ps))[n..];
      bank', ps' := FetchWithin(bank', ps', rest);
    }
  }

  lemma {:induction false} NoData(ps: seq<seq<byte>>)
    requires EndsWithData(ps)
    ensures Flatten(ps) == [] <==> ps == []
    decreases |ps|
  {
    if |ps| > 1 {
      NoData(ps[1..]);
    }
  }

  /** Fetching exactly the bytes of some packets consumes exactly those packets. */
  lemma FetchAllExact(bank: seq<byte>, ps: seq<seq<byte>>, rest: seq<seq<byte>>)
    requires EndsWithData(ps)
    ensures FetchAll(Queue(bank, ps + rest), |bank + Flatten(ps)|).1 == Queue([], rest)
  {
    var bank', ps' := FetchAllWithin(bank, ps, rest, |bank + Flatten(ps)|);
    assert bank' == [] && Flatten(ps') == [];
    NoData(ps');
    assert [] + rest == rest;
  }

  // ----- byte-wise transmission -----

  /** CDC_TXRX_EPSIZE. */
  const BANK: nat := 16

  /** The IN bank being filled and the packets sent so far. */
  datatype Sender = Sender(bank: seq<byte>, sent: seq<seq<byte>>)

  /** WriteNextResponseByte: a full bank is sent before the byte is stored. */
  function WriteByte(t: Sender, b: byte): (r: Sender) {
    if |t.bank| >= BANK then Sender([b], t.sent + [t.bank]) else Sender(t.bank + [b], t.sent)
  }

  function WriteAll(t: Sender, bs: seq<byte>): (r: Sender)
    decreases |bs|
  {
    if |bs| == 0 then t else WriteByte(WriteAll(t, bs[..|bs| - 1]), bs[|bs| - 1])
  }

  /** The end of CDC_Task: the bank is sent, and after a full one an empty packet. */
  function EndTransfer(t: Sender): (r: Sender) {
    Sender([], t.sent + [t.bank] + (if |t.bank| >= BANK then [[]] else []))
  }

  /** The packets of a transfer: full ones, then exactly one short packet. */
  function Packets(bs: seq<byte>): (ps: seq<seq<byte>>)
    decreases |bs|
  {
    if |bs| < BANK then [bs] else [bs[..BANK]] + Packets(bs[BANK..])
  }

  /** A transfer's packets are all full but the last, which is short and ends it
      (section 5.8.3 of USB 2.0), and together they are the bytes in order. */
  lemma {:induction false} PacketsShape(bs: seq<byte>)
    ensures var ps := Packets(bs);
            && |ps| > 0 && |ps[|ps| - 1]| < BANK
            && (forall i | 0 <= i < |ps| - 1 :: |ps[i]| == BANK)
            && Flatten(ps) == bs
    decreases |bs|
  {
    if |bs| >= BANK {
      PacketsShape(bs[BANK..]);
      assert bs[..BANK] + bs[BANK..] == bs;
    } else {
      assert [bs][1..] == [] && bs + [] == bs;
    }
  }

  predicate AllFull(ps: seq<seq<byte>>) {
    forall i | 0 <= i < |ps| :: |ps[i]| == BANK
  }

  lemma AllFullSnoc(ps: seq<seq<byte>>, p: seq<byte>)
    requires AllFull(ps) && |p| == BANK
    ensures AllFull(ps + [p])
  {
  }

  /** Writing bs from an empty bank sends full packets only and keeps the rest. */
  lemma {:induction false} WriteAllShape(sent: seq<seq<byte>>, bs: seq<byte>) returns (full: seq<seq<byte>>)
    ensures var t := WriteAll(Sender([], sent), bs);
            && AllFull(full) && t.sent == sent + full && |t.bank| <= BANK && bs == Flatten(full) + t.bank
    decreases |bs|
  {
    if |bs| == 0 {
      full := [];
      assert sent + [] == sent;
    } else {
      hide Flatten, AllFull;
      var n := |bs| - 1;
      full := WriteAllShape(sent, bs[..n]);
      var t := WriteAll(Sender([], sent), bs[..n]);
      assert bs == bs[..n] + [bs[n]];
      if |t.bank| >= BANK {
        FlattenSnoc(full, t.bank);
        AllFullSnoc(full, t.bank);
        assert sent + full + [t.bank] == sent + (full + [t.bank]);
        full := full + [t.bank];
      }
    }
  }

  lemma {:induction false} FlattenSnoc(ps: seq<seq<byte>>, p: seq<byte>)
    ensures Flatten(ps + [p]) == Flatten(ps) + p
    decreases |ps|
  {
    if |ps| == 0 {
      assert ([] + [p])[1..] == [] && p + [] == p;
    } else {
      FlattenSnoc(ps[1..], p);
      assert (ps + [p])[1..] == ps[1..] + [p];
    }
  }

  lemma {:induction false} PacketsOfFull(full: seq<seq<byte>>, tail: seq<byte>)
    requires AllFull(full)
    ensures Packets(Flatten(full) + tail) == full + Packets(tail)
    decreases |full|
  {
    if |full| == 0 {
      assert Flatten(full) + tail == tail && full + Packets(tail) == Packets(tail);
    } else {
      var rest := full[1..];
      PacketsOfFull(rest, tail);
      var bs := Flatten(full) + tail;
      Associate(full[0], Flatten(rest), tail);
      assert bs == full[0] + (Flatten(rest) + tail);
      assert bs[..BANK] == full[0] && bs[BANK..] == Flatten(rest) + tail;
      Associate([full[0]], rest, Packets(tail));
      assert full == [full[0]] + rest;
    }
  }

  /** Every response leaves as full packets followed by exactly one short packet
      whose concatenation is the bytes written. */
  lemma TransferPackets(sent: seq<seq<byte>>, bs: seq<byte>)
    ensures EndTransfer(WriteAll(Sender([], sent), bs)) == Sender([], sent + Packets(bs))
  {
    hide WriteAll;
    var full := WriteAllShape(sent, bs);
    var t := WriteAll(Sender([], sent), bs);
    PacketsOfFull(full, t.bank);
    if |t.bank| >= BANK {
      assert t.bank[..BANK] == t.bank && t.bank[BANK..] == [];
      assert Packets([]) == [[]];
      assert sent + full + [t.bank] + [[]] == sent + (full + ([t.bank] + [[]]));
    } else {
      assert sent + full + [t.bank] + [] == sent + (full + [t.bank]);
    }
  }
}
