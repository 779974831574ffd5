/** When the completion of a receive is posted. process_send posts from the head of the active list,
    and only for a SEND segment that leaves no hole before it. So a complete receive can be left at
    the head although nothing is missing, and the completion of a receive can be posted although
    something sent before its message is missing. A run of a send, a write and a send shows both. */
module ReceiveOrder {
  import opened Ddp
  import opened TrpReceive
  import opened SendQueue
  import opened RecvQueue
  import opened Endpoint
  import opened System
  import opened Segments
  import opened Reassembly
  import opened Placement
  import opened Theorems
  import opened Example

  // ---- When a complete receive leaves the head ----

  predicate HeadIsComplete(q: RecvQ) {
    q.active != [] && q.active[0].complete
  }

  /** A SEND segment is placed and leaves no hole before it. */
  predicate PlacesInOrder(e: Ep, a: Action)
    requires Wf(e)
  {
    Takes(e, a) && Places(e, a.d.seg) && a.d.psn < RxStep(e.rx, a.d.psn).0.ack
  }

  lemma {:induction false} PostCompleteStops(q: RecvQ)
    ensures !HeadIsComplete(PostComplete(q))
    decreases |q.active|
  {
    if HeadIsComplete(q) {
      PostCompleteStops(q.(active := q.active[1..], cqes := q.cqes + [RecvCqe(q.active[0], true)]));
    }
  }

  /** Of all steps only two take a complete receive from the head: a SEND segment that is placed in
      order, and the flush at shutdown. */
  lemma HeadStaysIff(e: Ep, a: Action)
    requires Wf(e) && Enabled(e, a) && HeadIsComplete(e.rq)
    ensures HeadIsComplete(Do(e, a).rq) <==> !a.Shutdown? && !PlacesInOrder(e, a)
  {
    if Takes(e, a) && Places(e, a.d.seg) {
      var g := a.d.seg;
      var k := Lookup(e.rq.active, g.msn);
      PostCompleteStops(e.rq.(active := e.rq.active[k := PlaceIn(e.rq.active[k], g.mo, g.last, g.data)]));
    }
  }

  /** The segment completes the receive at the head. */
  predicate CompletesHead(e: Ep, g: Segment)
    requires Places(e, g)
  {
    var q := Refilled(e.rq);
    Lookup(q.active, g.msn) == 0 && PlaceIn(q.active[0], g.mo, g.last, g.data).complete
  }

  /** And one gets there in one way: the segment that completes it is placed out of order. */
  lemma HeadBecomesCompleteIff(e: Ep, a: Action)
    requires Wf(e) && Enabled(e, a) && !HeadIsComplete(e.rq) && Blank(e.rq)
    ensures HeadIsComplete(Do(e, a).rq) <==>
              Takes(e, a) && Places(e, a.d.seg) && CompletesHead(e, a.d.seg) && !PlacesInOrder(e, a)
  {
    if Takes(e, a) && Places(e, a.d.seg) {
      var q, g := Refilled(e.rq), a.d.seg;
      var k := Lookup(q.active, g.msn);
      PostCompleteStops(q.(active := q.active[k := PlaceIn(q.active[k], g.mo, g.last, g.data)]));
    }
  }

  /** In every run: a complete receive comes to be left at the head exactly when a segment of the next
      message to complete brings its missing bytes and leaves a hole before it. */
  lemma HeadIsLeftIff(x: Side, y: Side, a: Action)
    requires Occurs(x, y) && CanStep(y, x, a) && !HeadIsComplete(y.ep.rq)
    ensures var msn := |y.ep.rq.cqes| + 1;
            HeadIsComplete(Do(y.ep, a).rq) <==>
            && Takes(y.ep, a) && Places(y.ep, a.d.seg) && a.d.seg.msn == msn
            && HasMessage(msn, BytesOf(Advance(y, a).got, msn), Messages(x.ep.sq.wrs))
            && RxStep(y.ep.rx, a.d.psn).0.ack <= a.d.psn
  {
    OccursReasm(x, y);
    HeadBecomesCompleteIff(y.ep, a);
    if Takes(y.ep, a) && Places(y.ep, a.d.seg) && !PlacesInOrder(y.ep, a) {
      OccursTurned(x, y);
      OccursNext(y, x, a);
      OccursTurned(Advance(y, a), x);
      HeadKeepsNumber(y.ep.rq, a.d.seg);
      CompleteIff(x, Advance(y, a), 0);
    }
  }

  /** A placed segment that posts nothing: the head has the next MSN, and it is complete only if the
      segment was for it. */
  lemma HeadKeepsNumber(q: RecvQ, g: Segment)
    requires Numbered(q) && Blank(q) && !HeadIsComplete(q) && g.SendSeg?
    requires Fits(Refilled(q), g.msn, g.mo, g.last, g.data)
    ensures var q' := ProcessSend(q, g.msn, g.mo, g.last, g.data, false);
            q'.active != [] && q'.active[0].msn == |q.cqes| + 1 && (q'.active[0].complete ==> g.msn == |q.cqes| + 1)
  {
  }

  // ---- When a completion is ordered after everything sent before it ----

  /** Every segment of the message of a receive that completed with success was accepted. */
  lemma CompletedMeansAccepted(x: Side, y: Side, k: nat, p: nat)
    requires Occurs(x, y) && k < |y.ep.rq.cqes| && y.ep.rq.cqes[k].ok
    requires p < |x.log| && x.log[p].seg.SendSeg? && x.log[p].seg.msn == k + 1
    ensures Accepted(y.ep.rx, p)
  {
    OccursHolds(x, y);
    PieceOfMessage(x, p);
    if !Accepted(y.ep.rx, p) {
      NewBytes(x, y.ep.rx, y.got, y.ep.rq.nextMsn, p, x.log[p].seg.mo);
      assert false;
    }
  }

  /** Everything below an accepted number is accepted if and only if the number is below the cumulative
      acknowledgement. */
  lemma NoHoleBelowIff(r: Rx, p: nat)
    requires RxOk(r) && Accepted(r, p)
    ensures (forall q: nat :: q < p ==> Accepted(r, q)) <==> p < r.ack
  {
    assert !Accepted(r, r.ack);
  }

  /** The exact condition under which a completion comes after everything sent before a segment of its
      message. For the last segment it is what the source promises of every completion. */
  lemma CompletionOrderedIff(x: Side, y: Side, k: nat, p: nat)
    requires Occurs(x, y) && k < |y.ep.rq.cqes| && y.ep.rq.cqes[k].ok
    requires p < |x.log| && x.log[p].seg.SendSeg? && x.log[p].seg.msn == k + 1
    ensures (forall q: nat :: q < p ==> Accepted(y.ep.rx, q)) <==> p < y.ep.rx.ack
  {
    OccursHolds(x, y);
    CompletedMeansAccepted(x, y, k, p);
    NoHoleBelowIff(y.ep.rx, p);
  }

  // ---- The sender: a send, a write and a send ----

  const WRITE := Wr(OpWrite(5, 0), [MESSAGE], true)
  const WRS := [WR, WRITE, WR]

  /** The segment of request n. */
  function Seg(n: nat): Segment {
    if n == 0 then SendSeg(1, 0, true, MESSAGE)
    else if n == 1 then WriteSeg(5, 0, true, MESSAGE)
    else SendSeg(2, 0, true, MESSAGE)
  }

  ghost predicate Sending(x: Side, wqs: seq<Wq>, n: nat, msn: nat, pend: seq<Pending>) {
    && Wf(x.ep) && !x.ep.closed && x.ep.cfg == CFG && x.ep.rx == RX_START && n <= 3
    && x.ep.tx == Tx(0, pend, 0, 4, true, {}) && x.log == pend
    && x.ep.sq == SendQ(WRS, wqs, [0, 1, 2][n..], [0, 1, 2][..n], [], msn, 1, 0, multiset{}, [])
  }

  lemma AllPosted()
    ensures Post(Post(Post(SENDQ_START, WR), WRITE), WR) ==
            SendQ(WRS, [WQ_START, WQ_START, WQ_START], [0, 1, 2], [], [], 1, 1, 0, multiset{}, [])
  {
  }

  lemma PostsThree(y: Side) returns (x: Side)
    requires Occurs(Fresh(CFG), y)
    ensures Occurs(x, y) && Sending(x, [WQ_START, WQ_START, WQ_START], 0, 1, [])
  {
    x := PostsOne(Fresh(CFG), y, WR);
    x := PostsOne(x, y, WRITE);
    x := PostsOne(x, y, WR);
    AllPosted();
    OccursNext(x, y, EndSweep);
    x := Advance(x, EndSweep);
  }

  lemma Cut(wr: Wr, msn: nat)
    requires wr == WR || wr == WRITE
    ensures Total(wr) == 2
    ensures NextSegment(wr, Wq(Transfer, msn, 0, 0), 10) ==
            if wr == WR then SendSeg(msn, 0, true, MESSAGE) else WriteSeg(5, 0, true, MESSAGE)
  {
    FlatOfOne(MESSAGE);
    assert MESSAGE[0..2] == MESSAGE;
  }

  /** Request n is taken up. */
  lemma TakesUp(x: Side, y: Side, wqs: seq<Wq>, n: nat, msn: nat, pend: seq<Pending>) returns (x': Side)
    requires Occurs(x, y) && Sending(x, wqs, n, msn, pend) && n < 3 && |wqs| == 3 && wqs[n] == WQ_START
    requires forall k :: 0 <= k < n ==> wqs[k].state == Wait
    ensures Occurs(x', y) && x'.out == x.out
    ensures Sending(x', wqs[n := Wq(Transfer, if n == 1 then 0 else msn, 0, 0)], n + 1, if n == 1 then msn else msn + 1, pend)
  {
    assert [0, 1, 2][n..][0] == n && [0, 1, 2][n..][1..] == [0, 1, 2][n + 1..] && [0, 1, 2][..n] + [n] == [0, 1, 2][..n + 1];
    OccursNext(x, y, ActivateWqe);
    x' := Advance(x, ActivateWqe);
  }

  /** ... and its segment goes out. */
  lemma SendsOut(x: Side, y: Side, wqs: seq<Wq>, n: nat, m: nat, msn: nat, pend: seq<Pending>) returns (x': Side)
    requires n < 3 && |wqs| == 3 && |pend| == n && wqs[n] == Wq(Transfer, m, 0, 0)
    requires Occurs(x, y) && Sending(x, wqs, n + 1, msn, pend) && m == (if n == 0 then 1 else if n == 1 then 0 else 2)
    ensures Occurs(x', y) && x'.out == x.out + [Data(n, 0, Seg(n))]
    ensures Sending(x', wqs[n := Wq(Wait, m, 2, 0)], n + 1, msn, pend + [Pending(Seg(n), ByWqe(n))])
  {
    Cut(WRS[n], m);
    assert x.ep.sq.active[n] == n;
    OccursNext(x, y, SendNext(n));
    x' := Advance(x, SendNext(n));
  }

  /** A peer has everything that was sent within reach. */
  ghost predicate Reaches(x: Side) {
    && |x.log| == 3 && forall n {:trigger Seg(n)} :: 0 <= n < 3 ==> x.log[n].seg == Seg(n) && Data(n, 0, Seg(n)) in x.out
  }

  lemma SendsAll(y: Side) returns (x: Side)
    requires Occurs(Fresh(CFG), y)
    ensures Occurs(x, y) && Reaches(x)
  {
    var z := WQ_START;
    x := PostsThree(y);
    x := TakesUp(x, y, [z, z, z], 0, 1, []);
    x := SendsOut(x, y, [Wq(Transfer, 1, 0, 0), z, z], 0, 1, 2, []);
    var d0 := [Pending(Seg(0), ByWqe(0))];
    x := TakesUp(x, y, [Wq(Wait, 1, 2, 0), z, z], 1, 2, d0);
    x := SendsOut(x, y, [Wq(Wait, 1, 2, 0), Wq(Transfer, 0, 0, 0), z], 1, 0, 2, d0);
    var d1 := d0 + [Pending(Seg(1), ByWqe(1))];
    x := TakesUp(x, y, [Wq(Wait, 1, 2, 0), Wq(Wait, 0, 2, 0), z], 2, 2, d1);
    x := SendsOut(x, y, [Wq(Wait, 1, 2, 0), Wq(Wait, 0, 2, 0), Wq(Transfer, 2, 0, 0)], 2, 2, 3, d1);
  }

  // ---- The receiver ----

  function Empty(id: nat, msn: nat): Rwqe {
    Rwqe(id, BUF, msn, 0, 0, false)
  }

  function Full(id: nat, msn: nat): Rwqe {
    PlaceIn(Empty(id, msn), 0, true, MESSAGE)
  }

  lemma Fills(q: RecvQ, k: nat, id: nat, msn: nat, inOrder: bool)
    requires k < |q.active| && q.active[k] == Empty(id, msn) && forall i :: 0 <= i < k ==> q.active[i].msn != msn
    ensures Fits(q, msn, 0, true, MESSAGE) && Full(id, msn).complete
    ensures var q' := q.(active := q.active[k := Full(id, msn)]);
            ProcessSend(q, msn, 0, true, MESSAGE, inOrder) == if inOrder then PostComplete(q') else q'
  {
    FlatOfOne([0, 0]);
    var l := Lookup(q.active, msn);
  }

  /** The receiver with a queue and the numbers it has accepted. */
  ghost predicate At(x: Side, y: Side, rx: Rx, active: seq<Rwqe>, cqes: seq<RecvCqe>) {
    && Occurs(x, y) && Wf(y.ep) && !y.ep.closed && y.ep.rx == rx
    && y.ep.rq == RecvQ([], active, 3, cqes, [BUF, BUF])
  }

  ghost predicate Ready(x: Side, y: Side) {
    && Occurs(x, y) && Wf(y.ep) && !y.ep.closed && y.ep.rx == RX_START
    && y.ep.rq == RecvQ([Empty(0, 0), Empty(1, 0)], [], 1, [], [BUF, BUF])
  }

  lemma PostsReceives(x: Side, y: Side) returns (y': Side)
    requires Occurs(x, y) && y == Fresh(CFG)
    ensures Ready(x, y')
  {
    OccursTurned(x, y);
    OccursNext(y, x, PostRecvWr(BUF));
    y' := Advance(y, PostRecvWr(BUF));
    OccursNext(y', x, PostRecvWr(BUF));
    y' := Advance(y', PostRecvWr(BUF));
  }

  lemma Refills(q: RecvQ)
    requires q == RecvQ([Empty(0, 0), Empty(1, 0)], [], 1, [], [BUF, BUF])
    ensures Refilled(q) == RecvQ([], [Empty(0, 1), Empty(1, 2)], 3, [], [BUF, BUF])
    ensures forall msn, inOrder :: ProcessSend(q, msn, 0, true, MESSAGE, inOrder) ==
              ProcessSend(Refilled(q), msn, 0, true, MESSAGE, inOrder)
  {
    assert Refilled(q).active == [Empty(0, 1), Empty(1, 2)];
  }

  /** A complete receive at the head is posted, and then the rest. */
  lemma PostsHead(q: RecvQ)
    requires HeadIsComplete(q)
    ensures PostComplete(q) == PostComplete(q.(active := q.active[1..], cqes := q.cqes + [RecvCqe(q.active[0], true)]))
  {
  }

  /** The second message arrives first. */
  lemma SecondFirst(x: Side, y: Side) returns (y': Side)
    requires Ready(x, y) && Reaches(x)
    ensures At(x, y', Rx(0, true, 2, 3, true), [Empty(0, 1), Full(1, 2)], [])
  {
    OccursTurned(x, y);
    assert Seg(2) == SendSeg(2, 0, true, MESSAGE);
    Refills(y.ep.rq);
    Fills(Refilled(y.ep.rq), 1, 1, 2, false);
    OccursNext(y, x, Receive(Data(2, 0, Seg(2))));
    y' := Advance(y, Receive(Data(2, 0, Seg(2))));
    OccursTurned(y', x);
  }

  /** ... and then the first, with which both completions are posted. The write is missing. */
  lemma FirstThen(x: Side, y: Side) returns (y': Side)
    requires At(x, y, Rx(0, true, 2, 3, true), [Empty(0, 1), Full(1, 2)], []) && Reaches(x)
    ensures At(x, y', Rx(1, true, 2, 3, true), [], [RecvCqe(Full(0, 1), true), RecvCqe(Full(1, 2), true)])
  {
    OccursTurned(x, y);
    assert Seg(0) == SendSeg(1, 0, true, MESSAGE);
    var q := y.ep.rq;
    Fills(q, 0, 0, 1, true);
    Fills(q.(active := [Empty(1, 2)]), 0, 1, 2, true);
    var c0, c1 := RecvCqe(Full(0, 1), true), RecvCqe(Full(1, 2), true);
    PostsHead(q.(active := [Full(0, 1), Full(1, 2)]));
    assert [Full(0, 1), Full(1, 2)][1..] == [Full(1, 2)] && q.cqes + [c0] == [c0];
    PostsHead(q.(active := [Full(1, 2)], cqes := [c0]));
    assert [Full(1, 2)][1..] == [] && [c0] + [c1] == [c0, c1];
    assert q.active[0 := Full(0, 1)] == [Full(0, 1), Full(1, 2)];
    OccursNext(y, x, Receive(Data(0, 0, Seg(0))));
    y' := Advance(y, Receive(Data(0, 0, Seg(0))));
    OccursTurned(y', x);
  }

  /** The first message arrives and its completion is posted. */
  lemma FirstFirst(x: Side, y: Side) returns (y': Side)
    requires Ready(x, y) && Reaches(x)
    ensures At(x, y', Rx(1, false, 0, 0, true), [Empty(1, 2)], [RecvCqe(Full(0, 1), true)])
  {
    OccursTurned(x, y);
    assert Seg(0) == SendSeg(1, 0, true, MESSAGE);
    Refills(y.ep.rq);
    var q := Refilled(y.ep.rq);
    Fills(q, 0, 0, 1, true);
    assert q.active[0 := Full(0, 1)] == [Full(0, 1), Empty(1, 2)] && [Full(0, 1), Empty(1, 2)][1..] == [Empty(1, 2)];
    PostsHead(q.(active := [Full(0, 1), Empty(1, 2)]));
    OccursNext(y, x, Receive(Data(0, 0, Seg(0))));
    y' := Advance(y, Receive(Data(0, 0, Seg(0))));
    OccursTurned(y', x);
  }

  /** The second message arrives before the write. */
  lemma SecondThen(x: Side, y: Side) returns (y': Side)
    requires At(x, y, Rx(1, false, 0, 0, true), [Empty(1, 2)], [RecvCqe(Full(0, 1), true)]) && Reaches(x)
    ensures At(x, y', Rx(1, true, 2, 3, true), [Full(1, 2)], [RecvCqe(Full(0, 1), true)])
  {
    OccursTurned(x, y);
    assert Seg(2) == SendSeg(2, 0, true, MESSAGE);
    Fills(y.ep.rq, 0, 1, 2, false);
    assert y.ep.rq.active[0 := Full(1, 2)] == [Full(1, 2)];
    OccursNext(y, x, Receive(Data(2, 0, Seg(2))));
    y' := Advance(y, Receive(Data(2, 0, Seg(2))));
    OccursTurned(y', x);
  }

  /** The write closes the gap, and posts nothing. */
  lemma WriteLast(x: Side, y: Side) returns (y': Side)
    requires At(x, y, Rx(1, true, 2, 3, true), [Full(1, 2)], [RecvCqe(Full(0, 1), true)]) && Reaches(x)
    ensures At(x, y', Rx(3, false, 2, 3, true), [Full(1, 2)], [RecvCqe(Full(0, 1), true)])
  {
    OccursTurned(x, y);
    assert Seg(1).WriteSeg?;
    OccursNext(y, x, Receive(Data(1, 0, Seg(1))));
    y' := Advance(y, Receive(Data(1, 0, Seg(1))));
    OccursTurned(y', x);
  }

  lemma Starts() returns (x: Side, y: Side)
    ensures Ready(x, y) && Reaches(x)
  {
    Begins();
    y := Fresh(CFG);
    x := SendsAll(y);
    y := PostsReceives(x, y);
  }

  /** The completion of the second send is posted although the write before it is missing. */
  lemma CompletionOvertakesWrite() returns (x: Side, y: Side)
    ensures Occurs(x, y) && |y.ep.rq.cqes| == 2 && y.ep.rq.cqes[1].ok
    ensures |x.log| == 3 && x.log[1].seg.WriteSeg? && !Accepted(y.ep.rx, 1)
    ensures x.log[2].seg.SendSeg? && x.log[2].seg.msn == 2 && x.log[2].seg.last && Accepted(y.ep.rx, 2)
  {
    x, y := Starts();
    y := SecondFirst(x, y);
    y := FirstThen(x, y);
    assert Seg(1).WriteSeg? && Seg(2).SendSeg?;
  }

  /** Everything that was sent has arrived, and a complete receive is left at the head without its
      completion. */
  lemma CompleteReceiveIsLeft() returns (x: Side, y: Side)
    ensures Occurs(x, y) && !y.ep.closed && |x.log| == y.ep.rx.ack == 3 && !y.ep.rx.missing
    ensures HeadIsComplete(y.ep.rq) && |y.ep.rq.cqes| == 1
  {
    x, y := Starts();
    y := FirstFirst(x, y);
    y := SecondThen(x, y);
    y := WriteLast(x, y);
    Fills(y.ep.rq.(active := [Empty(1, 2)]), 0, 1, 2, false);
  }
}
