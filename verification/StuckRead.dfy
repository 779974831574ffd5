/** A run in which the data of a READ has arrived and the READ is left waiting. A send and two
    READs are posted, and only the datagram of the send is lost. Both responses arrive and both
    of their last segments are popped, but the first READ cannot leave the active list before the
    send does, so the second pop finds it again and completes nothing. */
module StuckRead {
  import opened Ddp
  import opened TrpReceive
  import opened SendQueue
  import opened ReadQueue
  import opened Endpoint
  import opened System
  import opened Invariant
  import opened Theorems
  import opened Example

  const TWO := Config(4, 10, 2, 2)
  const R1 := ReadInfo(1, 0, 1, 5, 0)
  const R2 := ReadInfo(2, 0, 1, 5, 0)
  const RD1 := Wr(OpRead(R1), [], true)
  const RD2 := Wr(OpRead(R2), [], true)
  const WRS := [WR, RD1, RD2]

  /** The send queue after n requests were taken up and sent. */
  function Queue(wqs: seq<Wq>, n: nat, heap: multiset<nat>): SendQ
    requires n <= 3
  {
    SendQ(WRS, wqs, [0, 1, 2][n..], [0, 1, 2][..n], [], if n == 0 then 1 else 2,
          if n <= 1 then 1 else n, if n <= 1 then 0 else n - 1, heap, [])
  }

  ghost predicate Sending(x: Side, wqs: seq<Wq>, n: nat, pend: seq<Pending>) {
    && Wf(x.ep) && !x.ep.closed && x.ep.cfg == TWO && x.ep.rx == RX_START && n <= 3
    && x.ep.tx == Tx(0, pend, 0, 4, true, {}) && x.ep.sq == Queue(wqs, n, multiset{})
  }

  lemma Begins()
    ensures Occurs(Fresh(TWO), Fresh(TWO))
  {
    var s := Sys(Fresh(TWO), Fresh(TWO));
    assert IsStart(s) && Legal([s], 0);
    assert IsRun([s]) && Turned([s][0], false) == Sys(Fresh(TWO), Fresh(TWO));
  }

  lemma AllPosted()
    ensures Post(Post(Post(SENDQ_START, WR), RD1), RD2) == Queue([WQ_START, WQ_START, WQ_START], 0, multiset{})
  {
  }

  lemma PostsThree(y: Side) returns (x: Side)
    requires Occurs(Fresh(TWO), y)
    ensures Occurs(x, y) && Sending(x, [WQ_START, WQ_START, WQ_START], 0, [])
  {
    x := PostsOne(Fresh(TWO), y, WR);
    x := PostsOne(x, y, RD1);
    x := PostsOne(x, y, RD2);
    AllPosted();
    OccursNext(x, y, EndSweep);
    x := Advance(x, EndSweep);
  }

  const DONE := Wq(Wait, 1, 2, 0)
  const D0 := Pending(SEGMENT, ByWqe(0))
  const D1 := Pending(ReadReq(1, R1), ByWqe(1))
  const D2 := Pending(ReadReq(2, R2), ByWqe(2))

  const READY := Wq(Transfer, 1, 0, 0)

  lemma FirstSegment()
    ensures NextSegment(WR, READY, 10) == SEGMENT && DdpLength(SEGMENT) == 2 == Total(WR)
  {
    FlatOfOne(MESSAGE);
    assert MESSAGE[0..2] == MESSAGE;
  }

  lemma TakesUp(x: Side, y: Side) returns (x': Side)
    requires Occurs(x, y) && Sending(x, [WQ_START, WQ_START, WQ_START], 0, [])
    ensures Occurs(x', y) && Sending(x', [READY, WQ_START, WQ_START], 1, [])
  {
    OccursNext(x, y, ActivateWqe);
    x' := Advance(x, ActivateWqe);
  }

  lemma Sends(x: Side, y: Side) returns (x': Side)
    requires Occurs(x, y) && Sending(x, [WQ_START, WQ_START, WQ_START], 0, [])
    ensures Occurs(x', y) && Sending(x', [DONE, WQ_START, WQ_START], 1, [D0])
  {
    x' := TakesUp(x, y);
    FirstSegment();
    assert x'.ep.sq.active[0] == 0;
    OccursNext(x', y, SendNext(0));
    x' := Advance(x', SendNext(0));
  }

  lemma AsksFirst(x: Side, y: Side) returns (x': Side)
    requires Occurs(x, y) && Sending(x, [DONE, WQ_START, WQ_START], 1, [D0])
    ensures Occurs(x', y) && Sending(x', [DONE, Wq(Wait, 1, 0, 0), WQ_START], 2, [D0, D1])
    ensures Data(1, 0, ReadReq(1, R1)) in x'.out
  {
    OccursNext(x, y, ActivateWqe);
    x' := Advance(x, ActivateWqe);
    OccursNext(x', y, RequestRead(1));
    x' := Advance(x', RequestRead(1));
  }

  lemma AsksSecond(x: Side, y: Side) returns (x': Side)
    requires Occurs(x, y) && Sending(x, [DONE, Wq(Wait, 1, 0, 0), WQ_START], 2, [D0, D1])
    requires Data(1, 0, ReadReq(1, R1)) in x.out
    ensures Occurs(x', y) && Sending(x', [DONE, Wq(Wait, 1, 0, 0), Wq(Wait, 2, 0, 0)], 3, [D0, D1, D2])
    ensures Data(1, 0, ReadReq(1, R1)) in x'.out && Data(2, 0, ReadReq(2, R2)) in x'.out
  {
    OccursNext(x, y, ActivateWqe);
    x' := Advance(x, ActivateWqe);
    OccursNext(x', y, RequestRead(2));
    x' := Advance(x', RequestRead(2));
  }

  /** The responder takes both requests, though the send before them is missing. */
  lemma RequestsArrive(x: Side, y: Side) returns (y': Side)
    requires Occurs(x, y) && y == Fresh(TWO)
    requires Data(1, 0, ReadReq(1, R1)) in x.out && Data(2, 0, ReadReq(2, R2)) in x.out
    ensures Occurs(x, y') && Wf(y'.ep) && !y'.ep.closed && y'.ep.cfg == TWO
    ensures y'.ep.rx == Rx(0, true, 1, 3, true) && y'.ep.tx == Tx(0, [], 0, 3, true, {})
    ensures y'.ep.rr == ReadQ([Slot(true, 2, 0, 1, 0), Slot(true, 1, 0, 1, 0)], 1, 3)
  {
    OccursTurned(x, y);
    y' := y;
    OccursNext(y', x, Receive(Data(1, 0, ReadReq(1, R1))));
    y' := Advance(y', Receive(Data(1, 0, ReadReq(1, R1))));
    assert y'.ep.rr.slots == [IDLE, Slot(true, 1, 0, 1, 0)];
    OccursNext(y', x, Receive(Data(2, 0, ReadReq(2, R2))));
    y' := Advance(y', Receive(Data(2, 0, ReadReq(2, R2))));
    OccursNext(y', x, EndSweep);
    y' := Advance(y', EndSweep);
  }

  const A1 := ReadResp(1, 0, true, [7])
  const A2 := ReadResp(2, 0, true, [8])

  lemma Answers(x: Side, y: Side) returns (y': Side)
    requires Occurs(x, y) && Wf(y.ep) && !y.ep.closed && y.ep.cfg == TWO
    requires y.ep.rx == Rx(0, true, 1, 3, true) && y.ep.tx == Tx(0, [], 0, 3, true, {})
    requires y.ep.rr == ReadQ([Slot(true, 2, 0, 1, 0), Slot(true, 1, 0, 1, 0)], 1, 3)
    ensures Occurs(x, y') && Data(0, 0, A1) in y'.out && Data(1, 0, A2) in y'.out
  {
    OccursTurned(x, y);
    OccursNext(y, x, Respond([7]));
    y' := Advance(y, Respond([7]));
    assert y'.ep.rr == ReadQ([Slot(true, 2, 0, 1, 0), Slot(false, 1, 1, 0, 1)], 2, 3);
    OccursNext(y', x, Respond([8]));
    y' := Advance(y', Respond([8]));
  }

  const BOTH := [DONE, Wq(Wait, 1, 0, 0), Wq(Wait, 2, 0, 0)]

  ghost predicate Has(x: Side, ack: nat, wqs: seq<Wq>, heap: multiset<nat>) {
    && Wf(x.ep) && !x.ep.closed && x.ep.rx.ack == ack && !x.ep.rx.missing && x.ep.sq == Queue(wqs, 3, heap)
  }

  lemma ActiveRead(q: SendQ, heap: multiset<nat>)
    requires q == Queue(BOTH, 3, heap) && InTable(q)
    ensures ReadIsActive(q, 1) && ReadIsActive(q, 2)
  {
    assert q.active == [0, 1, 2];
    assert q.wrs[q.active[1]] == RD1 && q.wrs[q.active[2]] == RD2;
  }

  lemma FirstArrives(x: Side, y: Side) returns (x': Side)
    requires Occurs(x, y) && Sending(x, BOTH, 3, [D0, D1, D2]) && Data(0, 0, A1) in y.out
    ensures Occurs(x', y) && Has(x', 1, BOTH, multiset{0})
  {
    ActiveRead(x.ep.sq, multiset{});
    OccursNext(x, y, Receive(Data(0, 0, A1)));
    x' := Advance(x, Receive(Data(0, 0, A1)));
  }

  lemma SecondArrives(x: Side, y: Side) returns (x': Side)
    requires Occurs(x, y) && Has(x, 1, BOTH, multiset{0}) && Data(1, 0, A2) in y.out
    ensures Occurs(x', y) && Has(x', 2, BOTH, multiset{0, 1})
  {
    ActiveRead(x.ep.sq, multiset{0});
    OccursNext(x, y, Receive(Data(1, 0, A2)));
    x' := Advance(x, Receive(Data(1, 0, A2)));
  }

  lemma FirstReadIsOne(q: SendQ)
    requires q.wrs == WRS && q.active == [0, 1, 2]
    ensures FirstRead(q.wrs, q.active) == 1
  {
  }

  const FIRST_DONE := [DONE, Wq(Complete, 1, 0, 0), Wq(Wait, 2, 0, 0)]

  /** The first pop marks the first READ ... */
  lemma FirstPops(x: Side, y: Side) returns (x': Side)
    requires Occurs(x, y) && Has(x, 2, BOTH, multiset{0, 1})
    ensures Occurs(x', y) && Has(x', 2, FIRST_DONE, multiset{1})
  {
    FirstReadIsOne(x.ep.sq);
    assert MinOf(multiset{0, 1}) == 0 && multiset{0, 1} - multiset{0} == multiset{1};
    OccursNext(x, y, PopRead);
    x' := Advance(x, PopRead);
  }

  /** ... and the second pop marks nothing. */
  lemma SecondPops(x: Side, y: Side) returns (x': Side)
    requires Occurs(x, y) && Has(x, 2, FIRST_DONE, multiset{1})
    ensures Occurs(x', y) && Has(x', 2, FIRST_DONE, multiset{})
  {
    FirstReadIsOne(x.ep.sq);
    assert MinOf(multiset{1}) == 1;
    OccursNext(x, y, PopRead);
    x' := Advance(x, PopRead);
  }

  /** The run: everything the responder sent has arrived, the heap is empty, and the second READ
      waits. */
  lemma SecondReadIsStuck() returns (x: Side, y: Side)
    ensures Occurs(x, y) && !x.ep.closed && x.ep.rx.ack == 2 && !x.ep.rx.missing && x.ep.sq.heap == multiset{}
    ensures x.ep.sq.wrs == WRS && x.ep.sq.active == [0, 1, 2] && x.ep.sq.wqs == FIRST_DONE
    ensures Data(0, 0, A1) in y.out && Data(1, 0, A2) in y.out
  {
    Begins();
    y := Fresh(TWO);
    x := PostsThree(y);
    x := Sends(x, y);
    x := AsksFirst(x, y);
    x := AsksSecond(x, y);
    y := RequestsArrive(x, y);
    y := Answers(x, y);
    x := FirstArrives(x, y);
    x := SecondArrives(x, y);
    x := FirstPops(x, y);
    x := SecondPops(x, y);
  }
}
