/** The requester's side of RDMA READ: the outbound read depth (ORD) and the order in which
    READs are sent and completed. */
module ReadRequester {
  import opened Ddp
  import opened SendQueue
  import opened Endpoint
  import opened System
  import opened Accounting

  /** How many of the first n work requests are READs. */
  function ReadCount(wrs: seq<Wr>, n: nat): (c: nat)
    requires n <= |wrs|
  {
    if n == 0 then 0 else ReadCount(wrs, n - 1) + (if wrs[n - 1].op.OpRead? then 1 else 0)
  }

  lemma {:induction false} ReadCountGrow(wrs: seq<Wr>, wr: Wr, n: nat)
    requires n <= |wrs|
    ensures ReadCount(wrs + [wr], n) == ReadCount(wrs, n)
  {
    if n > 0 { ReadCountGrow(wrs, wr, n - 1); }
  }

  lemma {:induction false} ReadCountMonotone(wrs: seq<Wr>, v: nat, w: nat)
    requires v <= w <= |wrs|
    ensures ReadCount(wrs, v) <= ReadCount(wrs, w)
  {
    if v < w { ReadCountMonotone(wrs, v, w - 1); }
  }

  /** The READ number r is somewhere between lo and hi. */
  lemma {:induction false} ReadAt(wrs: seq<Wr>, lo: nat, hi: nat, r: nat) returns (w: nat)
    requires lo <= hi <= |wrs| && ReadCount(wrs, lo) <= r < ReadCount(wrs, hi)
    ensures lo <= w < hi && wrs[w].op.OpRead? && ReadCount(wrs, w) == r
    decreases hi
  {
    if lo == hi {
      assert false;
    } else if ReadCount(wrs, hi - 1) <= r {
      w := hi - 1;
    } else {
      w := ReadAt(wrs, lo, hi - 1, r);
    }
  }

  /** The newest active WQE is a READ that has not been sent. */
  predicate Unsent(q: SendQ)
    requires |q.wqs| == |q.wrs| && Started(q) <= |q.wrs|
  {
    |q.active| > 0 && q.wrs[Started(q) - 1].op.OpRead? && q.wqs[Started(q) - 1].state.Transfer?
  }

  /** One READ that was started: its MSN, what was sent for it, and that of the active ones
      only the oldest can be complete, and only after as many pops. */
  ghost predicate ReadOk(q: SendQ, w: nat, reqs: seq<ReadInfo>, pops: nat)
    requires Ordered(q) && w < |q.wrs|
  {
    var r, wq := ReadCount(q.wrs, w), q.wqs[w];
    && wq.msn == r + 1
    && (!wq.state.Transfer? ==> r < |reqs| && q.wrs[w].op == OpRead(reqs[r]))
    && (|q.retired| <= w && wq.state.Complete? ==> r == ReadCount(q.wrs, |q.retired|) && r < pops)
  }

  ghost predicate ReadsOk(q: SendQ, reqs: seq<ReadInfo>, pops: nat)
    requires Ordered(q)
  {
    forall w {:trigger ReadOk(q, w, reqs, pops)} :: 0 <= w < Started(q) && q.wrs[w].op.OpRead? ==>
      ReadOk(q, w, reqs, pops)
  }

  /** The counters: ord_active is the READs sent and not completed, within the ORD; no more
      are completed than last segments were popped. */
  ghost predicate DepthOk(q: SendQ, reqs: seq<ReadInfo>, pops: nat, ord: nat)
    requires Ordered(q)
  {
    && q.ordActive + ReadCount(q.wrs, |q.retired|) == |reqs|
    && q.ordActive <= ord
    && ReadCount(q.wrs, |q.retired|) <= pops
    && q.readMsn == ReadCount(q.wrs, Started(q)) + 1
    && |reqs| + (if Unsent(q) then 1 else 0) == ReadCount(q.wrs, Started(q))
  }

  /** READ requests enter the log in MSN order, each once. */
  ghost predicate ReqLog(log: seq<Pending>, reqs: seq<ReadInfo>) {
    && (forall p :: 0 <= p < |log| && log[p].seg.ReadReq? ==>
          1 <= log[p].seg.msn <= |reqs| && log[p].seg.req == reqs[log[p].seg.msn - 1])
    && (forall p, r {:trigger log[p], log[r]} :: 0 <= p < r < |log| && log[p].seg.ReadReq? && log[r].seg.ReadReq? ==>
          log[p].seg.msn < log[r].seg.msn)
  }

  ghost predicate NoEmptyRead(wrs: seq<Wr>) {
    forall w :: 0 <= w < |wrs| && wrs[w].op.OpRead? ==> wrs[w].op.req.size > 0
  }

  ghost predicate ReqInv(x: Side) {
    var q := x.ep.sq;
    && Ordered(q) && NoEmptyRead(q.wrs) && ReqLog(x.log, x.reqs)
    && (forall k :: 0 <= k < |x.reqs| ==> x.reqs[k].size > 0)
    && |x.reqs| <= |x.popped| + x.ep.cfg.ordMax
    && (!x.ep.closed ==> ReadsOk(q, x.reqs, |x.popped|) && DepthOk(q, x.reqs, |x.popped|, x.ep.cfg.ordMax))
  }

  // ---- The queue operations ----

  lemma PostReads(q: SendQ, wr: Wr, reqs: seq<ReadInfo>, pops: nat, ord: nat)
    requires Ordered(q) && Ordered(Post(q, wr)) && ReadsOk(q, reqs, pops) && DepthOk(q, reqs, pops, ord)
    ensures ReadsOk(Post(q, wr), reqs, pops) && DepthOk(Post(q, wr), reqs, pops, ord)
  {
    var q' := Post(q, wr);
    ReadCountGrow(q.wrs, wr, |q.retired|);
    ReadCountGrow(q.wrs, wr, Started(q));
    forall w | 0 <= w < Started(q') && q'.wrs[w].op.OpRead? ensures ReadOk(q', w, reqs, pops) {
      ReadCountGrow(q.wrs, wr, w);
      assert ReadOk(q, w, reqs, pops) && q'.wqs[w] == q.wqs[w];
    }
  }

  lemma ActivateReads(q: SendQ, reqs: seq<ReadInfo>, pops: nat, ord: nat)
    requires Ordered(q) && Staged(q) && InTable(q) && CanActivate(q) && Ordered(Activate(q))
    requires ReadsOk(q, reqs, pops) && DepthOk(q, reqs, pops, ord)
    ensures ReadsOk(Activate(q), reqs, pops) && DepthOk(Activate(q), reqs, pops, ord)
  {
    var q', s := Activate(q), Started(q);
    assert q.queue[0] == s;
    if |q.active| > 0 { assert q.active[|q.active| - 1] == s - 1; }
    assert !Unsent(q);
    forall w | 0 <= w < Started(q') && q'.wrs[w].op.OpRead? ensures ReadOk(q', w, reqs, pops) {
      if w != s { assert ReadOk(q, w, reqs, pops) && q'.wqs[w] == q.wqs[w]; }
    }
  }

  /** The only READ that can be waiting to be sent is the newest WQE. */
  lemma UnsentIsNewest(q: SendQ, w: nat)
    requires Ordered(q) && Staged(q) && |q.retired| <= w < Started(q)
    requires q.wrs[w].op.OpRead? && q.wqs[w].state.Transfer?
    ensures w == Started(q) - 1 && Unsent(q)
  {
  }

  lemma RequestReads(q: SendQ, w: nat, reqs: seq<ReadInfo>, pops: nat, ord: nat)
    requires Ordered(q) && Staged(q) && |q.retired| <= w < Started(q) && Ordered(StartRead(q, w))
    requires q.wrs[w].op.OpRead? && q.wqs[w].state.Transfer? && q.ordActive < ord
    requires ReadsOk(q, reqs, pops) && DepthOk(q, reqs, pops, ord)
    ensures q.wqs[w].msn == |reqs| + 1
    ensures ReadsOk(StartRead(q, w), reqs + [q.wrs[w].op.req], pops)
    ensures DepthOk(StartRead(q, w), reqs + [q.wrs[w].op.req], pops, ord)
  {
    var q', reqs' := StartRead(q, w), reqs + [q.wrs[w].op.req];
    UnsentIsNewest(q, w);
    assert ReadOk(q, w, reqs, pops);
    forall v | 0 <= v < Started(q') && q'.wrs[v].op.OpRead? ensures ReadOk(q', v, reqs', pops) {
      if v != w { assert ReadOk(q, v, reqs, pops) && q'.wqs[v] == q.wqs[v]; }
    }
  }

  /** The head of the active list completes. */
  lemma RetireReads(q: SendQ, w: nat, reqs: seq<ReadInfo>, pops: nat, ord: nat)
    requires Ordered(q) && w < |q.wrs| && q.wqs[w].state.Complete? && Ordered(TryComplete(q, w))
    requires ReadsOk(q, reqs, pops) && DepthOk(q, reqs, pops, ord)
    ensures ReadsOk(TryComplete(q, w), reqs, pops) && DepthOk(TryComplete(q, w), reqs, pops, ord)
    ensures q.active != [] && q.active[0] == w && q.wrs[w].op.OpRead? ==> q.ordActive > 0
  {
    if q.active != [] && q.active[0] == w {
      var q' := TryComplete(q, w);
      assert w == |q.retired| && q'.wqs == q.wqs;
      if q.wrs[w].op.OpRead? { assert ReadOk(q, w, reqs, pops); }
      forall v | 0 <= v < Started(q') && q'.wrs[v].op.OpRead? ensures ReadOk(q', v, reqs, pops) {
        assert ReadOk(q, v, reqs, pops);
        if w < v { ReadCountMonotone(q.wrs, w + 1, v); }
      }
    }
  }

  /** Between the retired WQEs and the first active READ there is no other. */
  lemma {:induction false} NoReadBetween(wrs: seq<Wr>, v: nat, w: nat)
    requires v <= w <= |wrs| && forall i :: v <= i < w ==> !wrs[i].op.OpRead?
    ensures ReadCount(wrs, w) == ReadCount(wrs, v)
  {
    if v < w { NoReadBetween(wrs, v, w - 1); }
  }

  lemma FirstReadIsOldest(q: SendQ)
    requires Ordered(q) && InTable(q)
    ensures var k := FirstRead(q.wrs, q.active);
            ReadCount(q.wrs, |q.retired| + k) == ReadCount(q.wrs, |q.retired|)
  {
    var k := FirstRead(q.wrs, q.active);
    forall i | |q.retired| <= i < |q.retired| + k ensures !q.wrs[i].op.OpRead? {
      assert q.active[i - |q.retired|] == i;
    }
    NoReadBetween(q.wrs, |q.retired|, |q.retired| + k);
  }

  /** A popped last segment finds the oldest READ, which has been sent. */
  lemma PopFindsRead(q: SendQ, reqs: seq<ReadInfo>, pops: nat, ord: nat)
    requires Ordered(q) && InTable(q) && Staged(q)
    requires ReadsOk(q, reqs, pops) && DepthOk(q, reqs, pops, ord) && pops < |reqs|
    ensures var k := FirstRead(q.wrs, q.active);
            && k < |q.active| && !q.wqs[q.active[k]].state.Transfer?
            && ReadCount(q.wrs, q.active[k]) == ReadCount(q.wrs, |q.retired|)
  {
    var k := FirstRead(q.wrs, q.active);
    FirstReadIsOldest(q);
    if k == |q.active| { assert false; }
    var w := q.active[k];
    if q.wqs[w].state.Transfer? {
      UnsentIsNewest(q, w);
      assert false;
    }
  }

  lemma PopReads(q: SendQ, p: nat, reqs: seq<ReadInfo>, pops: nat, ord: nat)
    requires Ordered(q) && InTable(q) && Staged(q) && Ordered(CompleteRead(q, p))
    requires ReadsOk(q, reqs, pops) && DepthOk(q, reqs, pops, ord) && pops < |reqs|
    ensures ReadsOk(CompleteRead(q, p), reqs, pops + 1) && DepthOk(CompleteRead(q, p), reqs, pops + 1, ord)
  {
    PopFindsRead(q, reqs, pops, ord);
    var w := q.active[FirstRead(q.wrs, q.active)];
    var q1 := q.(heap := q.heap - multiset{p}, wqs := q.wqs[w := q.wqs[w].(state := Complete)]);
    MarkReads(q, w, q1, reqs, pops, ord);
    RetireReads(q1, w, reqs, pops + 1, ord);
  }

  lemma MarkReads(q: SendQ, w: nat, q1: SendQ, reqs: seq<ReadInfo>, pops: nat, ord: nat)
    requires Ordered(q) && Staged(q) && ReadsOk(q, reqs, pops) && DepthOk(q, reqs, pops, ord) && pops < |reqs|
    requires |q.retired| <= w < Started(q) && q.wrs[w].op.OpRead? && !q.wqs[w].state.Transfer?
    requires ReadCount(q.wrs, w) == ReadCount(q.wrs, |q.retired|)
    requires q1 == q.(heap := q1.heap, wqs := q.wqs[w := q.wqs[w].(state := Complete)])
    ensures Ordered(q1) && ReadsOk(q1, reqs, pops + 1) && DepthOk(q1, reqs, pops + 1, ord)
  {
    assert ReadOk(q, w, reqs, pops);
    forall v | 0 <= v < Started(q1) && q1.wrs[v].op.OpRead? ensures ReadOk(q1, v, reqs, pops + 1) {
      assert ReadOk(q, v, reqs, pops);
      if v != w { assert q1.wqs[v] == q.wqs[v]; }
    }
  }

  /** What only touches sends and writes leaves the READs as they are. */
  lemma OtherReads(q: SendQ, q': SendQ, reqs: seq<ReadInfo>, pops: nat, ord: nat)
    requires Ordered(q) && Ordered(q') && ReadsOk(q, reqs, pops) && DepthOk(q, reqs, pops, ord)
    requires q'.wrs == q.wrs && q'.active == q.active && q'.retired == q.retired
    requires q'.ordActive == q.ordActive && q'.readMsn == q.readMsn
    requires forall w :: 0 <= w < |q.wrs| && q.wrs[w].op.OpRead? ==>
               q'.wqs[w].state == q.wqs[w].state && q'.wqs[w].msn == q.wqs[w].msn
    ensures ReadsOk(q', reqs, pops) && DepthOk(q', reqs, pops, ord)
  {
    forall v | 0 <= v < Started(q') && q'.wrs[v].op.OpRead? ensures ReadOk(q', v, reqs, pops) {
      assert ReadOk(q, v, reqs, pops);
    }
  }

  // ---- Every step keeps it ----

  lemma ReqLogGrows(log: seq<Pending>, more: seq<Pending>, reqs: seq<ReadInfo>)
    requires ReqLog(log, reqs) && forall k :: 0 <= k < |more| ==> !more[k].seg.ReadReq?
    ensures ReqLog(log + more, reqs)
  {
  }

  lemma ReqLogAdds(log: seq<Pending>, d: Pending, reqs: seq<ReadInfo>)
    requires ReqLog(log, reqs) && d.seg.ReadReq? && d.seg.msn == |reqs| + 1
    ensures ReqLog(log + [d], reqs + [d.seg.req])
  {
  }

  lemma RequestGoesOut(x: Side, w: nat)
    requires Wf(x.ep) && Enabled(x.ep, RequestRead(w))
    ensures var q, x' := x.ep.sq, Advance(x, RequestRead(w));
            && q.wrs[w].op.OpRead? && q.wqs[w].state.Transfer? && q.ordActive < x.ep.cfg.ordMax && !x'.ep.closed
            && x'.ep.sq == StartRead(q, w) && x'.reqs == x.reqs + [q.wrs[w].op.req] && x'.popped == x.popped
            && x'.log == x.log + [Pending(ReadReq(q.wqs[w].msn, q.wrs[w].op.req), ByWqe(w))] && x'.ep.cfg == x.ep.cfg
  {
  }

  lemma ReqAfterRequest(x: Side, w: nat)
    requires Wf(x.ep) && Enabled(x.ep, RequestRead(w)) && QueueOk(x.ep) && QueueOk(Do(x.ep, RequestRead(w))) && ReqInv(x)
    ensures ReqInv(Advance(x, RequestRead(w)))
  {
    var q := x.ep.sq;
    ActiveRange(q, w);
    RequestGoesOut(x, w);
    RequestReads(q, w, x.reqs, |x.popped|, x.ep.cfg.ordMax);
    ReqLogAdds(x.log, Pending(ReadReq(q.wqs[w].msn, q.wrs[w].op.req), ByWqe(w)), x.reqs);
  }

  /** The steps that send, settle or free. */
  lemma ReqAfterSend(x: Side, a: Action)
    requires Wf(x.ep) && Enabled(x.ep, a) && QueueOk(x.ep) && QueueOk(Do(x.ep, a)) && ReqInv(x)
    requires a.SendNext? || a.Settle? || a.RequestRead?
    ensures ReqInv(Advance(x, a))
  {
    var q, x' := x.ep.sq, Advance(x, a);
    ActiveRange(q, a.w);
    if a.RequestRead? {
      ReqAfterRequest(x, a.w);
    } else {
      if a.SendNext? { SegmentSize(q.wrs[a.w], q.wqs[a.w], x.ep.cfg.mtu); }
      ReqLogGrows(x.log, NewPending(x.ep, a), x.reqs);
      OtherReads(q, x'.ep.sq, x.reqs, |x.popped|, x.ep.cfg.ordMax);
    }
  }

  lemma AckReads(q: SendQ, w: nat, len: nat, reqs: seq<ReadInfo>, pops: nat, ord: nat)
    requires Ordered(q) && w < |q.wrs| && Ordered(ProcessAck(q, w, len))
    requires ReadsOk(q, reqs, pops) && DepthOk(q, reqs, pops, ord)
    ensures ReadsOk(ProcessAck(q, w, len), reqs, pops) && DepthOk(ProcessAck(q, w, len), reqs, pops, ord)
  {
    var wq := q.wqs[w].(acked := q.wqs[w].acked + len);
    if !q.wrs[w].op.OpRead? && wq.acked == Total(q.wrs[w]) {
      var q1 := q.(wqs := q.wqs[w := wq.(state := Complete)]);
      OtherReads(q, q1, reqs, pops, ord);
      RetireReads(q1, w, reqs, pops, ord);
    } else {
      OtherReads(q, q.(wqs := q.wqs[w := wq]), reqs, pops, ord);
    }
  }

  ghost predicate OpenReads(e: Ep, reqs: seq<ReadInfo>, pops: nat) {
    Ordered(e.sq) && ReadsOk(e.sq, reqs, pops) && DepthOk(e.sq, reqs, pops, e.cfg.ordMax)
  }

  /** The steps on the send queue that send nothing. */
  lemma OpenReadsKeep(e: Ep, a: Action, reqs: seq<ReadInfo>, pops: nat)
    requires Wf(e) && Enabled(e, a) && QueueOk(e) && QueueOk(Do(e, a)) && OpenReads(e, reqs, pops)
    requires a.PostSendWr? || a.ActivateWqe? || a.Retire? || a.FreeAcked? || a.PopRead?
    requires a.PopRead? ==> pops < |reqs|
    ensures OpenReads(Do(e, a), reqs, if a.PopRead? then pops + 1 else pops)
  {
    var q, ord := e.sq, e.cfg.ordMax;
    match a
    case PostSendWr(wr) => PostReads(q, wr, reqs, pops, ord);
    case ActivateWqe => ActivateReads(q, reqs, pops, ord);
    case Retire(w) =>
      ActiveRange(q, w);
      RetireReads(q, w, reqs, pops, ord);
    case PopRead => PopReads(q, MinOf(q.heap), reqs, pops, ord);
    case FreeAcked =>
      var d := e.tx.pend[0];
      if d.owner.ByWqe? { AckReads(q, d.owner.w, DdpLength(d.seg), reqs, pops, ord); }
  }

  lemma OpenReadsRest(e: Ep, a: Action, reqs: seq<ReadInfo>, pops: nat)
    requires Wf(e) && Enabled(e, a) && QueueOk(e) && QueueOk(Do(e, a)) && OpenReads(e, reqs, pops)
    requires a.PostRecvWr? || a.Receive? || a.EndSweep? || a.Resend? || a.Respond? || a.EmitAck? || a.EmitSack?
    ensures OpenReads(Do(e, a), reqs, pops)
    ensures Do(e, a).sq.wrs == e.sq.wrs
  {
    if a.Receive? {
      QueueAfterReceipt(e, a.d);
      OtherReads(e.sq, Do(e, a).sq, reqs, pops, e.cfg.ordMax);
    }
  }

  lemma ReqAfterShutdown(x: Side)
    requires Wf(x.ep) && Enabled(x.ep, Shutdown) && QueueOk(x.ep) && QueueOk(Do(x.ep, Shutdown)) && ReqInv(x)
    ensures ReqInv(Advance(x, Shutdown))
  {
    SendsStay(x.ep, Shutdown);
  }

  lemma ReqAfterQueue(x: Side, a: Action)
    requires Wf(x.ep) && Enabled(x.ep, a) && QueueOk(x.ep) && QueueOk(Do(x.ep, a)) && ReqInv(x)
    requires a.PostSendWr? || a.ActivateWqe? || a.Retire? || a.FreeAcked? || a.PopRead?
    requires a.PopRead? ==> |x.popped| < |x.reqs|
    ensures ReqInv(Advance(x, a))
  {
    ReqLogGrows(x.log, NewPending(x.ep, a), x.reqs);
    OpenReadsKeep(x.ep, a, x.reqs, |x.popped|);
    if !a.PostSendWr? && !a.ActivateWqe? { SendsStay(x.ep, a); }
  }

  lemma ReqKeeps(x: Side, a: Action)
    requires Wf(x.ep) && Enabled(x.ep, a) && QueueOk(x.ep) && QueueOk(Do(x.ep, a)) && ReqInv(x)
    requires a.PopRead? ==> |x.popped| < |x.reqs|
    ensures ReqInv(Advance(x, a))
  {
    if a.SendNext? || a.Settle? || a.RequestRead? {
      ReqAfterSend(x, a);
    } else if a.Shutdown? {
      ReqAfterShutdown(x);
    } else if a.PostSendWr? || a.ActivateWqe? || a.Retire? || a.FreeAcked? || a.PopRead? {
      ReqAfterQueue(x, a);
    } else {
      ReqLogGrows(x.log, NewPending(x.ep, a), x.reqs);
      OpenReadsRest(x.ep, a, x.reqs, |x.popped|);
    }
  }
}
