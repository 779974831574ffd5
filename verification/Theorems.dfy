/** What holds in every state of every run: the promises of the transport, of DDP placement,
    of the work queues and of RDMA READ. In each, one side is x and its peer is y. */
module Theorems {
  import opened Iov
  import opened Ddp
  import opened TrpReceive
  import opened SendQueue
  import opened RecvQueue
  import opened ReadQueue
  import opened Endpoint
  import opened System
  import opened Transport
  import opened Accounting
  import opened Segments
  import opened Reassembly
  import opened ReadRequester
  import opened ReadResponder
  import opened ReadCompletion
  import opened Invariant

  /** A state of some run, seen from one side. */
  ghost predicate Occurs(x: Side, y: Side) {
    exists r: seq<Sys>, i, flip :: IsRun(r) && 0 <= i < |r| && Turned(r[i], flip) == Sys(x, y)
  }

  lemma OccursHolds(x: Side, y: Side)
    requires Occurs(x, y)
    ensures Half(x, y) && Half(y, x)
  {
    var r: seq<Sys>, i, flip :| IsRun(r) && 0 <= i < |r| && Turned(r[i], flip) == Sys(x, y);
    RunKeeps(r, i);
    BothHalves(r[i]);
  }

  lemma OccursAt(r: seq<Sys>, i: nat, flip: bool)
    requires IsRun(r) && i < |r|
    ensures Occurs(Turned(r[i], flip).left, Turned(r[i], flip).right)
  {
    assert Turned(r[i], flip) == Sys(Turned(r[i], flip).left, Turned(r[i], flip).right);
  }

  lemma OccursTurned(x: Side, y: Side)
    requires Occurs(x, y)
    ensures Occurs(y, x)
  {
    var r: seq<Sys>, i, flip :| IsRun(r) && 0 <= i < |r| && Turned(r[i], flip) == Sys(x, y);
    assert Turned(r[i], !flip) == Sys(y, x);
  }

  /** A step leads from one state of a run to another. */
  lemma OccursNext(x: Side, y: Side, a: Action)
    requires Occurs(x, y) && CanStep(x, y, a)
    ensures Occurs(Advance(x, a), y) && Occurs(y, Advance(x, a))
  {
    var r: seq<Sys>, i, flip :| IsRun(r) && 0 <= i < |r| && Turned(r[i], flip) == Sys(x, y);
    var s' := Sys(Advance(x, a), y);
    var r' := r[..i + 1] + [Turned(s', flip)];
    assert StepLeft(Sys(x, y), a, s');
    assert StepLeft(Turned(r[i], flip), a, Turned(r'[i + 1], flip));
    assert Moves(r[i], r'[i + 1]);
    forall k | 0 <= k < |r'| ensures Legal(r', k) {
      if k <= i { assert Legal(r, k); }
    }
    assert IsRun(r');
    assert Turned(r'[i + 1], flip) == s' && Turned(r'[i + 1], !flip) == Swap(s');
  }

  /** A step of the run, seen from one side: either side moved. */
  lemma RunStep(r: seq<Sys>, i: nat, flip: bool) returns (a: Action, mine: bool)
    requires IsRun(r) && 0 < i < |r|
    ensures var s, s' := Turned(r[i - 1], flip), Turned(r[i], flip);
            if mine then StepLeft(s, a, s') else StepLeft(Swap(s), a, Swap(s'))
  {
    assert Legal(r, i);
    var b :| StepLeft(r[i - 1], b, r[i]) || StepLeft(Swap(r[i - 1]), b, Swap(r[i]));
    a, mine := b, StepLeft(r[i - 1], b, r[i]) != flip;
  }

  lemma OccursWired(x: Side, y: Side)
    requires Occurs(x, y)
    ensures Wired(x) && Wired(y) && Linked(x, y)
  {
    OccursHolds(x, y);
  }

  lemma OccursQueued(x: Side, y: Side)
    requires Occurs(x, y)
    ensures QueueOk(x.ep) && SegInv(x)
  {
    OccursHolds(x, y);
  }

  lemma OccursReads(x: Side, y: Side)
    requires Occurs(x, y)
    ensures ReqInv(x) && RespInv(x, y) && PopInv(x, y)
  {
    OccursHolds(x, y);
  }

  // ---- Transport ----

  /** Exactly-once acceptance: the segments handed to DDP are those of distinct sequence
      numbers, exactly [0, ack) and, when something is missing, one interval above it; and
      every datagram that can arrive carries the segment its number was given to. */
  lemma ExactlyOnce(x: Side, y: Side)
    requires Occurs(x, y)
    ensures forall i, j :: 0 <= i < j < |y.taken| ==> y.taken[i] != y.taken[j]
    ensures forall p: nat :: p in y.taken <==> p < y.ep.rx.ack || (y.ep.rx.missing && y.ep.rx.lo <= p < y.ep.rx.hi)
    ensures y.ep.rx.missing ==> y.ep.rx.ack < y.ep.rx.lo < y.ep.rx.hi
    ensures forall p :: p in y.taken ==> p < |x.log|
    ensures forall d :: d in x.out && d.Data? ==> d.psn < |x.log| && d.seg == x.log[d.psn].seg
  {
    OccursWired(x, y);
    forall p | p in y.taken ensures p < |x.log| {
      BelowTop(y.ep.rx, p);
    }
    forall d | d in x.out && d.Data? ensures d.psn < |x.log| && d.seg == x.log[d.psn].seg {
      assert HonestDatagram(d, x.log, x.ep.rx);
    }
  }

  /** Acknowledgement safety: what has left the ring has been accepted, and whatever has not
      been accepted is still in the ring and still subject to retransmission. */
  lemma NothingIsLost(x: Side, y: Side, p: nat)
    requires Occurs(x, y) && p < |x.log|
    ensures p < x.ep.tx.head ==> Accepted(y.ep.rx, p)
    ensures !Accepted(y.ep.rx, p) ==>
              && x.ep.tx.head <= p < Next(x.ep.tx) && p !in x.ep.tx.quiet
              && x.ep.tx.pend[p - x.ep.tx.head] == x.log[p]
    ensures !Accepted(y.ep.rx, p) && !x.ep.closed ==> Wf(x.ep) && Enabled(x.ep, Resend(p))
  {
    OccursWired(x, y);
  }

  /** The ring never holds more than its size, and a send that passes the credit check finds
      its slot empty. */
  lemma WindowHolds(x: Side, y: Side)
    requires Occurs(x, y)
    ensures |x.ep.tx.pend| <= x.ep.cfg.size && Next(x.ep.tx) == |x.log|
    ensures forall k :: 0 <= k < |x.ep.tx.pend| ==> x.ep.tx.pend[k] == x.log[x.ep.tx.head + k]
    ensures HasCredit(x.ep) ==> |x.ep.tx.pend| < x.ep.cfg.size
  {
    OccursWired(x, y);
  }

  lemma {:induction false} OutGrows(r: seq<Sys>, i: nat, j: nat, flip: bool)
    requires IsRun(r) && i <= j < |r|
    ensures Turned(r[i], flip).left.out <= Turned(r[j], flip).left.out
  {
    if i < j {
      OutGrows(r, i, j - 1, flip);
      var _, _ := RunStep(r, j, flip);
    }
  }

  /** SACK truthfulness: a range once announced is, then and ever after, accepted. */
  lemma SackIsTrueForever(r: seq<Sys>, i: nat, j: nat, flip: bool, lo: nat, hi: nat, p: nat)
    requires IsRun(r) && i <= j < |r| && lo <= p < hi
    requires Sack(lo, hi) in Turned(r[i], flip).left.out
    ensures Accepted(Turned(r[j], flip).left.ep.rx, p)
  {
    OutGrows(r, i, j, flip);
    RunKeeps(r, j);
    var x := Turned(r[j], flip).left;
    assert Half(x, Turned(r[j], flip).right);
    assert HonestDatagram(Sack(lo, hi), x.log, x.ep.rx);
  }

  // ---- Messages ----

  /** End-to-end integrity: a receive that completed with success, the k-th, holds the k-th
      message the peer posted, whole, in the first byte_len bytes of its scatter list. */
  lemma Integrity(x: Side, y: Side, k: nat)
    requires Occurs(x, y) && k < |y.ep.rq.cqes| && y.ep.rq.cqes[k].ok
    ensures var msgs, wqe := Messages(x.ep.sq.wrs), y.ep.rq.cqes[k].wqe;
            && wqe.msn == k + 1 && k < |msgs|
            && wqe.inputSize == |msgs[k]| <= |Flat(wqe.bufs)|
            && Flat(wqe.bufs)[..wqe.inputSize] == msgs[k]
  {
    OccursHolds(x, y);
  }

  lemma OrderKept(e: Ep, a: Action)
    requires Wf(e) && Enabled(e, a) && InPostOrder(e.rq)
    ensures InPostOrder(Do(e, a).rq)
  {
    match a
    case PostRecvWr(bufs) => PostKeepsOrder(e.rq, bufs);
    case Receive(d) =>
      if Takes(e, a) && d.seg.SendSeg? {
        var g := d.seg;
        SendKeepsOrder(e.rq, g.msn, g.mo, g.last, g.data, d.psn < RxStep(e.rx, d.psn).0.ack);
      }
    case Shutdown => FlushKeepsOrder(e.rq);
    case _ =>
  }

  lemma {:induction false} RunKeepsPostOrder(r: seq<Sys>, i: nat, flip: bool)
    requires IsRun(r) && i < |r|
    ensures InPostOrder(Turned(r[i], flip).left.ep.rq)
  {
    if i == 0 {
      assert Legal(r, 0);
    } else {
      RunKeepsPostOrder(r, i - 1, flip);
      var a, mine := RunStep(r, i, flip);
      if mine { OrderKept(Turned(r[i - 1], flip).left.ep, a); }
    }
  }

  /** Receives complete in the order they were posted, which is the order of MSNs: the k-th
      completion is of the k-th receive posted, with its scatter list. */
  lemma ReceivesInOrder(x: Side, y: Side, k: nat)
    requires Occurs(x, y) && k < |y.ep.rq.cqes|
    ensures y.ep.rq.cqes[k].wqe.msn == k + 1 && IsPost(y.ep.rq.cqes[k].wqe, k, y.ep.rq.posts)
  {
    OccursHolds(x, y);
    var r: seq<Sys>, i, flip :| IsRun(r) && 0 <= i < |r| && Turned(r[i], flip) == Sys(x, y);
    RunKeepsPostOrder(r, i, !flip);
  }

  /** Segmentation: the segments of a work request in the log are slices of its payload, in
      order, without overlap, cover exactly what was sent, and only the final one is flagged
      Last. */
  lemma SegmentsTile(x: Side, y: Side, w: nat, b: nat)
    requires Occurs(x, y) && w < |x.ep.sq.wrs| && !x.ep.sq.wrs[w].op.OpRead? && b < Total(x.ep.sq.wrs[w])
    ensures w < |x.ep.sq.wqs| && (b < x.ep.sq.wqs[w].sent <==> Covered(x.log, x.ep.sq.wrs, w, b))
    ensures forall p, q :: 0 <= p < q < |x.log| && PieceCovers(x.ep.sq.wrs, x.log[p], w, b) ==>
              !PieceCovers(x.ep.sq.wrs, x.log[q], w, b)
    ensures forall p :: 0 <= p < |x.log| && PieceCovers(x.ep.sq.wrs, x.log[p], w, b) ==>
              SlicesAt(x.ep.sq.wrs[w], Offset(x.ep.sq.wrs, x.log[p]), x.log[p].seg, b)
  {
    OccursQueued(x, y);
    var wrs, wqs := x.ep.sq.wrs, x.ep.sq.wqs;
    forall p | 0 <= p < |x.log| && PieceCovers(wrs, x.log[p], w, b)
      ensures b < wqs[w].sent && SlicesAt(wrs[w], Offset(wrs, x.log[p]), x.log[p].seg, b)
    {
      assert SegOk(wrs, wqs, x.log[p]);
    }
    if b < wqs[w].sent { assert Covered(x.log, wrs, w, b); }
  }

  /** At b the segment at this offset has the byte of the payload, and it is flagged Last
      exactly if it ends the payload. */
  predicate SlicesAt(wr: Wr, off: int, g: Segment, b: nat) {
    && (g.SendSeg? || g.WriteSeg?)
    && 0 <= off <= b < off + |g.data| <= Total(wr)
    && g.data[b - off] == Flat(wr.iov)[b]
    && (g.last <==> off + |g.data| == Total(wr))
  }

  // ---- Work queues ----

  /** Byte conservation, and what an acknowledgement finds: the two assertions of
      do_process_ack hold. */
  lemma BytesConserved(x: Side, y: Side, w: nat)
    requires Occurs(x, y) && !x.ep.closed && w < |x.ep.sq.wrs| && !x.ep.sq.wrs[w].op.OpRead?
    ensures w < |x.ep.sq.wqs|
    ensures var wq, total := x.ep.sq.wqs[w], Total(x.ep.sq.wrs[w]);
            && wq.acked + Unacked(x.ep.tx.pend, w) == wq.sent <= total
            && (wq.state.Complete? <==> wq.acked == total && total > 0)
            && (x.ep.tx.pend != [] && x.ep.tx.pend[0].owner == ByWqe(w) ==>
                  var len := DdpLength(x.ep.tx.pend[0].seg);
                  wq.acked + len <= wq.sent && (wq.acked + len == total ==> wq.state.Wait?))
  {
    OccursQueued(x, y);
    assert WqOk(x.ep.sq.wrs[w], x.ep.sq.wqs[w]);
    if x.ep.tx.pend != [] && x.ep.tx.pend[0].owner == ByWqe(w) {
      OccursWired(x, y);
      RingKnown(x);
      ProcessAckKeeps(x.ep.sq, x.ep.tx.pend);
    }
  }

  lemma {:induction false} SuccessInOrder(wrs: seq<Wr>, n: nat)
    requires n <= |wrs|
    ensures forall k :: 0 <= k < |SuccessCqes(wrs, n)| ==>
              SuccessCqes(wrs, n)[k].ok && SuccessCqes(wrs, n)[k].w < n && wrs[SuccessCqes(wrs, n)[k].w].signaled
    ensures forall j, k :: 0 <= j < k < |SuccessCqes(wrs, n)| ==> SuccessCqes(wrs, n)[j].w < SuccessCqes(wrs, n)[k].w
    ensures forall w :: 0 <= w < n && wrs[w].signaled ==> SendCqe(w, true) in SuccessCqes(wrs, n)
  {
    if n > 0 { SuccessInOrder(wrs, n - 1); }
  }

  /** Send completions come in posting order, at most one for a WQE, successes first. */
  lemma CompletionsInOrder(x: Side, y: Side, j: nat, k: nat)
    requires Occurs(x, y) && j < k < |x.ep.sq.cqes|
    ensures x.ep.sq.cqes[j].w < x.ep.sq.cqes[k].w < |x.ep.sq.wrs|
    ensures x.ep.sq.cqes[k].ok ==> x.ep.sq.cqes[j].ok
  {
    OccursQueued(x, y);
    var q := x.ep.sq;
    if x.ep.closed {
      var n: nat :| FlushedFrom(q, n);
      SuccessInOrder(q.wrs, n);
    } else {
      SuccessInOrder(q.wrs, |q.retired|);
    }
  }

  /** While the queue pair is open, what has been completed is a prefix of what was posted,
      all of it complete, with one completion for each WQE that asked for one. */
  lemma CompletedPrefix(x: Side, y: Side, w: nat)
    requires Occurs(x, y) && !x.ep.closed && w < |x.ep.sq.retired|
    ensures x.ep.sq.retired[w] == w < |x.ep.sq.wrs| == |x.ep.sq.wqs| && x.ep.sq.wqs[w].state.Complete?
    ensures x.ep.sq.wrs[w].signaled <==> SendCqe(w, true) in x.ep.sq.cqes
  {
    OccursQueued(x, y);
    SuccessInOrder(x.ep.sq.wrs, |x.ep.sq.retired|);
  }

  /** A send or write of no bytes is never completed with success, before or after a shutdown, and
      neither is any request posted behind it: before a shutdown none of them is retired. The exact
      condition under which a transfer can complete is that it has a byte. */
  lemma EmptyTransferNeverCompletes(x: Side, y: Side, w: nat, v: nat)
    requires Occurs(x, y) && w < |x.ep.sq.wrs| && w <= v
    requires !x.ep.sq.wrs[w].op.OpRead? && Total(x.ep.sq.wrs[w]) == 0
    ensures SendCqe(v, true) !in x.ep.sq.cqes && (!x.ep.closed ==> v !in x.ep.sq.retired)
  {
    OccursQueued(x, y);
    var q := x.ep.sq;
    var n: nat := |q.retired|;
    if x.ep.closed {
      n :| FlushedFrom(q, n);
    } else {
      assert forall k :: 0 <= k < n ==> WqOk(q.wrs[k], q.wqs[k]);
    }
    assert n <= w;
    SuccessInOrder(q.wrs, n);
  }

  // ---- RDMA READ ----

  /** Read-slot safety: a READ request that the transport hands up is in the window, finds its
      slot free and is taken up. */
  lemma RequestAlwaysStored(x: Side, y: Side, d: Datagram)
    requires Occurs(x, y) && d in x.out && d.Data? && d.seg.ReadReq?
    requires Wf(y.ep) && RxStep(y.ep.rx, d.psn).1
    ensures InWindow(y.ep.rr, d.seg.msn) && !SlotOf(y.ep.rr, d.seg.msn).active
    ensures StoreRead(y.ep.rr, d.seg.msn, d.seg.req).1
  {
    OccursHolds(x, y);
    assert HonestDatagram(d, x.log, x.ep.rx);
    var m := d.seg.msn;
    assert |x.reqs| <= |y.last| + y.ep.cfg.irdMax;
    assert m !in y.recvd;
    RequestFindsSlot(y.ep.rr, y.recvd, x.reqs, |y.last|, m);
  }

  lemma CoveredOnce(x: Side, y: Side, m: nat, b: nat, p: nat, q: nat)
    requires RespInv(x, y) && p < q < |y.log| && RespCovers(y.log[p], m, b)
    ensures !RespCovers(y.log[q], m, b)
  {
    assert RespBefore(y.log[p], y.log[q]);
  }

  lemma CoversRequested(x: Side, y: Side, m: nat, b: nat, p: nat)
    requires RespInv(x, y) && p < |y.log| && RespCovers(y.log[p], m, b)
    ensures 1 <= m <= |x.reqs| && x.reqs[m - 1].sinkTo <= b < x.reqs[m - 1].sinkTo + x.reqs[m - 1].size
  {
    assert RespOk(y.log[p], x.reqs);
  }

  /** Responses go out in MSN order; each finished one tiles what was asked for: every byte of
      the sink range is in exactly one segment, and only the last one is flagged Last. */
  lemma ResponsesTile(x: Side, y: Side, m: nat, b: nat)
    requires Occurs(x, y) && 1 <= m <= |y.last|
    ensures m <= |x.reqs|
    ensures x.reqs[m - 1].sinkTo <= b < x.reqs[m - 1].sinkTo + x.reqs[m - 1].size <==> ByteSent(y.log, m, b)
    ensures forall p, q :: 0 <= p < q < |y.log| && RespCovers(y.log[p], m, b) ==> !RespCovers(y.log[q], m, b)
    ensures forall p :: 0 <= p < |y.log| && y.log[p].owner == ByRead(m) ==>
              y.log[p].seg.ReadResp? && p <= y.last[m - 1] && (y.log[p].seg.last <==> p == y.last[m - 1])
  {
    OccursReads(x, y);
    assert m in y.recvd;
    forall p | 0 <= p < |y.log| && RespCovers(y.log[p], m, b)
      ensures x.reqs[m - 1].sinkTo <= b < x.reqs[m - 1].sinkTo + x.reqs[m - 1].size
    {
      CoversRequested(x, y, m, b, p);
    }
    forall p, q | 0 <= p < q < |y.log| && RespCovers(y.log[p], m, b) ensures !RespCovers(y.log[q], m, b) {
      CoveredOnce(x, y, m, b, p, q);
    }
    forall p | 0 <= p < |y.log| && y.log[p].owner == ByRead(m)
      ensures y.log[p].seg.ReadResp? && p <= y.last[m - 1] && (y.log[p].seg.last <==> p == y.last[m - 1])
    {
      NotAfterLast(y.log, y.last, x.reqs, p);
    }
  }

  lemma ResponsesInMsnOrder(x: Side, y: Side, p: nat, q: nat)
    requires Occurs(x, y) && p < q < |y.log| && y.log[p].owner.ByRead? && y.log[q].owner.ByRead?
    ensures y.log[p].owner.msn <= y.log[q].owner.msn
  {
    OccursReads(x, y);
    assert RespOk(y.log[p], x.reqs) && RespOk(y.log[q], x.reqs);
    assert RespBefore(y.log[p], y.log[q]);
  }

  /** Pops follow request order, and when the last segment of a response is popped every
      segment of that response has been accepted. */
  lemma PopMeansPlaced(x: Side, y: Side, k: nat, p: nat)
    requires Occurs(x, y) && k < |x.popped|
    ensures k < |y.last| && x.popped[k] == y.last[k]
    ensures p < |y.log| && y.log[p].owner == ByRead(k + 1) ==> Accepted(x.ep.rx, p) && p in x.taken
  {
    OccursHolds(x, y);
    if p < |y.log| && y.log[p].owner == ByRead(k + 1) {
      NotAfterLast(y.log, y.last, x.reqs, p);
    }
  }

  /** A READ that completed has all its data: every byte of its sink buffer was brought by a
      segment of its response that has been handed to DDP. */
  lemma CompletedReadIsPlaced(x: Side, y: Side, w: nat, b: nat)
    requires Occurs(x, y) && !x.ep.closed && w < |x.ep.sq.retired| && w < |x.ep.sq.wrs| && x.ep.sq.wrs[w].op.OpRead?
    requires x.ep.sq.wrs[w].op.req.sinkTo <= b < x.ep.sq.wrs[w].op.req.sinkTo + x.ep.sq.wrs[w].op.req.size
    ensures exists p :: p in x.taken && p < |y.log| && RespCovers(y.log[p], ReadCount(x.ep.sq.wrs, w) + 1, b)
                        && y.log[p].seg.stag == x.ep.sq.wrs[w].op.req.sinkStag
  {
    OccursReads(x, y);
    CompletedPrefix(x, y, w);
    var k := ReadCount(x.ep.sq.wrs, w);
    assert ReadOk(x.ep.sq, w, x.reqs, |x.popped|);
    ReadCountMonotone(x.ep.sq.wrs, w + 1, |x.ep.sq.retired|);
    ResponsesTile(x, y, k + 1, b);
    assert ByteSent(y.log, k + 1, b);
    var p :| 0 <= p < |y.log| && RespCovers(y.log[p], k + 1, b);
    assert RespOk(y.log[p], x.reqs);
    PopMeansPlaced(x, y, k, p);
  }

  lemma {:induction false} HeapWithin(heap: multiset<nat>, last: seq<nat>, n: nat)
    requires n <= |last| && forall p :: p in heap ==> heap[p] == 1 && InTail(last, n, p)
    ensures |heap| <= |last| - n
    decreases |last| - n
  {
    if n == |last| {
      assert heap == multiset{};
    } else {
      var rest := heap[last[n] := 0];
      forall p | p in rest ensures rest[p] == 1 && InTail(last, n + 1, p) {
        assert p in heap;
        var k :| n <= k < |last| && last[k] == p;
        assert k != n;
      }
      HeapWithin(rest, last, n + 1);
      assert heap == rest || heap == rest + multiset{last[n]};
    }
  }

  /** ORD and heap capacity: ord_active counts the READs sent and not completed and stays
      within the ORD, and the pending last-segment numbers never exceed it. */
  lemma DepthBounded(x: Side, y: Side)
    requires Occurs(x, y) && !x.ep.closed
    ensures |x.ep.sq.retired| <= |x.ep.sq.wrs|
    ensures x.ep.sq.ordActive == |x.reqs| - ReadCount(x.ep.sq.wrs, |x.ep.sq.retired|)
    ensures |x.ep.sq.heap| <= x.ep.sq.ordActive <= x.ep.cfg.ordMax
  {
    OccursReads(x, y);
    HeapWithin(x.ep.sq.heap, y.last, |x.popped|);
    if |y.last| > 0 { assert |y.last| in y.recvd; }
  }

  /** The result of binheap_insert may be ignored: when a last segment enters the heap there
      is room for it. */
  lemma HeapInsertFits(x: Side, y: Side, a: Action)
    requires Occurs(x, y) && CanStep(x, y, a) && Takes(x.ep, a) && a.d.seg.ReadResp? && a.d.seg.last
    ensures Do(x.ep, a).sq.heap == x.ep.sq.heap + multiset{a.d.psn} && |x.ep.sq.heap| < x.ep.cfg.ordMax
  {
    OccursHolds(x, y);
    assert HonestDatagram(a.d, y.log, y.ep.rx);
    assert SegOk(y.ep.sq.wrs, y.ep.sq.wqs, y.log[a.d.psn]);
    ResponseFindsRead(x, y, a.d.psn);
    OccursNext(x, y, a);
    DepthBounded(Advance(x, a), y);
  }

  /** A pop always finds a READ to complete, and never one that was not sent. */
  lemma PopFindsSentRead(x: Side, y: Side)
    requires Occurs(x, y) && Wf(x.ep) && Enabled(x.ep, PopRead)
    ensures var k := FirstRead(x.ep.sq.wrs, x.ep.sq.active);
            k < |x.ep.sq.active| && !x.ep.sq.wqs[x.ep.sq.active[k]].state.Transfer?
  {
    OccursReads(x, y);
    OccursQueued(x, y);
    PopIsNext(x, y);
    assert |y.last| in y.recvd;
    PopFindsRead(x.ep.sq, x.reqs, |x.popped|, x.ep.cfg.ordMax);
  }

  /** The assertion on ord_active when a READ at the head of the active list completes: it was
      sent, so it is counted. */
  lemma SentReadIsCounted(x: Side, y: Side)
    requires Occurs(x, y) && !x.ep.closed && x.ep.sq.active != [] && x.ep.sq.active[0] < |x.ep.sq.wrs| == |x.ep.sq.wqs|
    requires x.ep.sq.wrs[x.ep.sq.active[0]].op.OpRead? && !x.ep.sq.wqs[x.ep.sq.active[0]].state.Transfer?
    ensures x.ep.sq.ordActive > 0
  {
    OccursReads(x, y);
    OccursQueued(x, y);
    assert x.ep.sq.active[0] == |x.ep.sq.retired|;
    assert ReadOk(x.ep.sq, |x.ep.sq.retired|, x.reqs, |x.popped|);
  }

  /** A slot in use always has bytes to send: in particular no slot behind a blocked response can
      be taken for a finished one. */
  lemma SlotHasBytes(x: Side, y: Side, m: nat)
    requires Occurs(x, y) && y.ep.rr.headMsn <= m < y.ep.rr.headMsn + |y.ep.rr.slots|
    requires SlotOf(y.ep.rr, m).active
    ensures SlotOf(y.ep.rr, m).remaining > 0
  {
    OccursReads(x, y);
    assert m in y.recvd;
  }

  /** The assertion after every placement: no receive takes more bytes than its message has. */
  lemma ReceivedWithin(x: Side, y: Side, k: nat)
    requires Occurs(x, y) && k < |y.ep.rq.active|
    ensures y.ep.rq.active[k].inputSize == 0 || y.ep.rq.active[k].recvSize <= y.ep.rq.active[k].inputSize
  {
    OccursHolds(x, y);
    var r := y.ep.rq.active[k];
    var got := BytesOf(y.got, r.msn);
    assert WqeOk(r, got, Messages(x.ep.sq.wrs));
    if r.inputSize != 0 && got != map[] {
      BoundedSize(got.Keys, r.inputSize);
    }
  }
}
