/** A short run: one message is posted, sent, received and completed, so that the statements about
    runs are about something. */
module Example {
  import opened Iov
  import opened Ddp
  import opened TrpReceive
  import opened SendQueue
  import opened RecvQueue
  import opened Endpoint
  import opened System
  import opened Invariant
  import opened Theorems

  const CFG := Config(4, 10, 1, 1)
  const MESSAGE: seq<byte> := [7, 9]
  const WR := Wr(OpSend, [MESSAGE], true)

  lemma Begins()
    ensures Occurs(Fresh(CFG), Fresh(CFG))
  {
    var s := Sys(Fresh(CFG), Fresh(CFG));
    assert IsStart(s);
    assert Legal([s], 0);
    assert IsRun([s]);
    assert Turned([s][0], false) == Sys(Fresh(CFG), Fresh(CFG));
  }

  /** One more request is posted. */
  lemma PostsOne(x: Side, y: Side, wr: Wr) returns (x': Side)
    requires Occurs(x, y) && Wf(x.ep) && !x.ep.closed && (wr.op.OpRead? ==> wr.op.req.size > 0)
    ensures Occurs(x', y) && Wf(x'.ep) && x'.log == x.log && x'.out == x.out && x'.ep == x.ep.(sq := Post(x.ep.sq, wr))
  {
    OccursNext(x, y, PostSendWr(wr));
    x' := Advance(x, PostSendWr(wr));
    OccursWired(x', y);
  }

  /** The sender before its segment goes out. */
  lemma Posts(y: Side) returns (x: Side)
    requires Occurs(Fresh(CFG), y)
    ensures Occurs(x, y) && Wf(x.ep) && x.ep.cfg == CFG && !x.ep.closed && x.ep.rx == RX_START
    ensures x.ep.tx == Tx(0, [], 0, 4, true, {})
    ensures x.ep.sq.wrs == [WR] && x.ep.sq.wqs == [Wq(Transfer, 1, 0, 0)] && x.ep.sq.active == [0] && x.ep.sq.cqes == []
    ensures x.out == [] && x.log == []
  {
    x := PostsOne(Fresh(CFG), y, WR);
    OccursNext(x, y, EndSweep);
    x := Advance(x, EndSweep);
    OccursNext(x, y, ActivateWqe);
    x := Advance(x, ActivateWqe);
  }

  lemma FlatOfOne(b: seq<byte>)
    ensures Flat([b]) == b
  {
    assert FlatTo([b], 0) == [];
  }

  const SEGMENT := SendSeg(1, 0, true, MESSAGE)

  ghost predicate Waits(x: Side) {
    && !x.ep.closed && x.ep.cfg == CFG && x.ep.tx.pend == [Pending(SEGMENT, ByWqe(0))] && x.ep.tx.head == 0
    && x.ep.sq.wrs == [WR] && x.ep.sq.wqs == [Wq(Wait, 1, 2, 0)] && x.ep.sq.active == [0] && x.ep.sq.cqes == []
  }

  /** ... and after it. */
  lemma Sends(x: Side, y: Side) returns (x': Side)
    requires Occurs(x, y) && Wf(x.ep) && x.ep.cfg == CFG && !x.ep.closed && x.ep.rx == RX_START
    requires x.ep.tx == Tx(0, [], 0, 4, true, {})
    requires x.ep.sq.wrs == [WR] && x.ep.sq.wqs == [Wq(Transfer, 1, 0, 0)] && x.ep.sq.active == [0] && x.ep.sq.cqes == []
    ensures Occurs(x', y) && Data(0, 0, SEGMENT) in x'.out && Waits(x')
  {
    FlatOfOne(MESSAGE);
    assert MESSAGE[0..2] == MESSAGE;
    assert NextSegment(WR, Wq(Transfer, 1, 0, 0), 10) == SEGMENT;
    OccursNext(x, y, SendNext(0));
    x' := Advance(x, SendNext(0));
  }

  /** The receiver takes it, and the receive completes. */
  lemma Receives(x: Side, y: Side) returns (y': Side)
    requires Occurs(x, y) && y == Fresh(CFG) && Data(0, 0, SEGMENT) in x.out
    ensures Occurs(x, y') && |y'.ep.rq.cqes| == 1 && y'.ep.rq.cqes[0].ok
    ensures y'.ep.rx == Rx(1, false, 0, 0, true) && !y'.ep.closed && Next(y'.ep.tx) == 0
  {
    OccursTurned(x, y);
    OccursNext(y, x, PostRecvWr([[0, 0]]));
    y' := Advance(y, PostRecvWr([[0, 0]]));
    Placed(y'.ep.rq);
    var d := Data(0, 0, SEGMENT);
    OccursNext(y', x, Receive(d));
    y' := Advance(y', Receive(d));
  }

  lemma Placed(q: RecvQ)
    requires q == RecvQ([Rwqe(0, [[0, 0]], 0, 0, 0, false)], [], 1, [], [[[0, 0]]])
    ensures var q' := ProcessSend(q, 1, 0, true, MESSAGE, true); |q'.cqes| == 1 && q'.cqes[0].ok
  {
    FlatOfOne([0, 0]);
    var q1 := Dequeue(q);
    assert q1.active == [Rwqe(0, [[0, 0]], 1, 0, 0, false)];
    assert Lookup(q1.active, 1) == 0;
    var r := PlaceIn(q1.active[0], 0, true, MESSAGE);
    assert r.complete;
    var q2 := q1.(active := q1.active[0 := r]);
    var q3 := q2.(active := q2.active[1..], cqes := q2.cqes + [RecvCqe(r, true)]);
    assert q3.active == [];
    assert PostComplete(q2) == PostComplete(q3) == q3;
    assert Fits(q1, 1, 0, true, MESSAGE) && ProcessSend(q, 1, 0, true, MESSAGE, true) == PostComplete(q2);
  }

  /** The acknowledgement comes back, and the send completes. */
  lemma Completes(x: Side, y: Side) returns (x': Side, y': Side)
    requires Occurs(x, y) && Waits(x) && Wf(x.ep) && Wf(y.ep)
    requires y.ep.rx == Rx(1, false, 0, 0, true) && !y.ep.closed && Next(y.ep.tx) == 0
    ensures Occurs(x', y') && x'.ep.sq.cqes == [SendCqe(0, true)] && y'.ep.rq == y.ep.rq
  {
    FlatOfOne(MESSAGE);
    OccursTurned(x, y);
    OccursNext(y, x, EmitAck);
    y' := Advance(y, EmitAck);
    assert Ack(0, 1) in y'.out;
    OccursNext(x, y', Receive(Ack(0, 1)));
    x' := Advance(x, Receive(Ack(0, 1)));
    OccursNext(x', y', FreeAcked);
    x' := Advance(x', FreeAcked);
  }

  /** Such a run exists, and its receive holds the message. */
  lemma Delivers() returns (x: Side, y: Side)
    ensures Occurs(x, y) && x.ep.sq.cqes == [SendCqe(0, true)]
    ensures |y.ep.rq.cqes| == 1 && y.ep.rq.cqes[0].ok
  {
    Begins();
    y := Fresh(CFG);
    x := Posts(y);
    x := Sends(x, y);
    y := Receives(x, y);
    OccursHolds(x, y);
    x, y := Completes(x, y);
  }
}
