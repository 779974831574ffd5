/** Completion of RDMA READs: the heap of last-segment numbers, its pops, and what they say
    about the response. */
module ReadCompletion {
  import opened Ddp
  import opened TrpReceive
  import opened SendQueue
  import opened Endpoint
  import opened System
  import opened Transport
  import opened Accounting
  import opened Segments
  import opened ReadRequester
  import opened ReadResponder

  ghost predicate InTail(last: seq<nat>, n: nat, p: nat) {
    exists k :: n <= k < |last| && last[k] == p
  }

  /** The heap holds exactly the last-segment numbers accepted and not popped, each once. */
  ghost predicate HeapOk(heap: multiset<nat>, last: seq<nat>, n: nat, rx: Rx) {
    && (forall p :: p in heap ==> heap[p] == 1 && Accepted(rx, p) && InTail(last, n, p))
    && (forall k :: n <= k < |last| && Accepted(rx, last[k]) ==> last[k] in heap)
  }

  /** x requests, y responds: the pops are the last segments of the responses in order, each
      with everything before it accepted. */
  ghost predicate PopInv(x: Side, y: Side) {
    PopState(x.popped, x.ep.sq.heap, y.last, x.ep.rx)
  }

  ghost predicate PopState(popped: seq<nat>, heap: multiset<nat>, last: seq<nat>, rx: Rx) {
    && |popped| <= |last|
    && (forall k :: 0 <= k < |popped| ==> popped[k] == last[k] && popped[k] < rx.ack)
    && HeapOk(heap, last, |popped|, rx)
  }

  lemma LastIncreases(log: seq<Pending>, last: seq<nat>, j: nat, k: nat)
    requires LastOk(log, last) && RespOrder(log) && j < k < |last|
    ensures last[j] < last[k]
  {
  }

  /** A segment of a finished response is not after its last one. */
  lemma NotAfterLast(log: seq<Pending>, last: seq<nat>, reqs: seq<ReadInfo>, p: nat)
    requires LastOk(log, last) && RespOrder(log) && RespsOk(log, reqs)
    requires p < |log| && log[p].owner.ByRead? && 1 <= log[p].owner.msn <= |last|
    ensures p <= last[log[p].owner.msn - 1]
    ensures log[p].seg.ReadResp? && (log[p].seg.last ==> p == last[log[p].owner.msn - 1])
  {
    var e := last[log[p].owner.msn - 1];
    assert RespOk(log[p], reqs) && RespOk(log[e], reqs);
    if e < p { assert false; }
  }

  /** A last segment in the log belongs to a finished response. */
  lemma LastIsListed(x: Side, y: Side, p: nat)
    requires RespInv(x, y) && p < |y.log| && y.log[p].owner.ByRead? && y.log[p].seg.ReadResp? && y.log[p].seg.last
    ensures y.log[p].owner.msn <= |y.last| && y.last[y.log[p].owner.msn - 1] == p
  {
    var m := y.log[p].owner.msn;
    assert RespOk(y.log[p], x.reqs);
    if m > |y.last| { assert false; }
    NotAfterLast(y.log, y.last, x.reqs, p);
  }

  lemma BelowTop(rx: Rx, p: nat)
    requires RxOk(rx) && Accepted(rx, p)
    ensures p < Top(rx)
  {
  }

  // ---- The pop ----

  /** The minimum of the heap, when everything before it has been accepted, is the last
      segment of the next response. */
  lemma PopIsNext(x: Side, y: Side)
    requires PopInv(x, y) && LastOk(y.log, y.last) && RespOrder(y.log)
    requires x.ep.sq.heap != multiset{} && MinOf(x.ep.sq.heap) < x.ep.rx.ack
    ensures |x.popped| < |y.last| && MinOf(x.ep.sq.heap) == y.last[|x.popped|]
  {
  }

  // ---- A last segment arrives ----

  /** The response belongs to a READ that is still active. */
  lemma ResponseFindsRead(x: Side, y: Side, p: nat)
    requires !x.ep.closed && ReqInv(x) && Staged(x.ep.sq) && InTable(x.ep.sq) && RespInv(x, y) && PopInv(x, y)
    requires p < |y.log| && y.log[p].owner.ByRead? && !Accepted(x.ep.rx, p)
    ensures y.log[p].seg.ReadResp? && ReadIsActive(x.ep.sq, y.log[p].seg.stag)
  {
    var q, m := x.ep.sq, y.log[p].owner.msn;
    assert RespOk(y.log[p], x.reqs);
    if m <= ReadCount(q.wrs, |q.retired|) {
      NotAfterLast(y.log, y.last, x.reqs, p);
      assert false;
    }
    var w := ReadAt(q.wrs, |q.retired|, Started(q), m - 1);
    assert ReadOk(q, w, x.reqs, |x.popped|);
    if q.wqs[w].state.Transfer? {
      UnsentIsNewest(q, w);
      assert false;
    }
    assert q.active[w - |q.retired|] == w;
  }

  /** What an action does to the heap. */
  lemma HeapAfter(e: Ep, a: Action)
    requires Wf(e) && Enabled(e, a) && QueueOk(e)
    ensures Do(e, a).sq.heap ==
            if a.PopRead? then e.sq.heap - multiset{MinOf(e.sq.heap)}
            else if Takes(e, a) && a.d.seg.ReadResp? && a.d.seg.last && ReadIsActive(e.sq, a.d.seg.stag)
            then e.sq.heap + multiset{a.d.psn}
            else e.sq.heap
  {
  }

  lemma PopStateAfterPop(popped: seq<nat>, heap: multiset<nat>, last: seq<nat>, rx: Rx)
    requires PopState(popped, heap, last, rx)
    requires |popped| < |last| && last[|popped|] in heap && last[|popped|] < rx.ack
    requires forall k :: |popped| < k < |last| ==> last[k] != last[|popped|]
    ensures PopState(popped + [last[|popped|]], heap - multiset{last[|popped|]}, last, rx)
  {
  }

  lemma PopEffect(x: Side)
    requires Wf(x.ep) && Enabled(x.ep, PopRead) && QueueOk(x.ep)
    ensures var x', p := Advance(x, PopRead), MinOf(x.ep.sq.heap);
            x'.popped == x.popped + [p] && x'.ep.sq.heap == x.ep.sq.heap - multiset{p} && x'.ep.rx == x.ep.rx
  {
  }

  lemma PopInvAfterPop(x: Side, y: Side)
    requires Wf(x.ep) && Enabled(x.ep, PopRead) && QueueOk(x.ep) && PopInv(x, y) && LastOk(y.log, y.last) && RespOrder(y.log)
    ensures PopInv(Advance(x, PopRead), y)
  {
    PopIsNext(x, y);
    forall k | |x.popped| < k < |y.last| ensures y.last[k] != y.last[|x.popped|] {
      LastIncreases(y.log, y.last, |x.popped|, k);
    }
    PopStateAfterPop(x.popped, x.ep.sq.heap, y.last, x.ep.rx);
    PopEffect(x);
  }

  /** A segment handed up at x that does not end a response. */
  lemma PopInvAfterOther(x: Side, y: Side, a: Action)
    requires CanStep(x, y, a) && Takes(x.ep, a) && QueueOk(x.ep) && Honest(y)
    requires LastOk(y.log, y.last) && PopInv(x, y) && !(a.d.seg.ReadResp? && a.d.seg.last)
    ensures PopInv(Advance(x, a), y)
  {
    RxAfter(x.ep, a);
    HeapAfter(x.ep, a);
    assert HonestDatagram(a.d, y.log, y.ep.rx);
    forall k | 0 <= k < |y.last| ensures y.last[k] != a.d.psn { }
  }

  /** A segment handed up at x that ends a response: its number enters the heap. */
  lemma PopInvAfterLast(x: Side, y: Side, a: Action)
    requires CanStep(x, y, a) && Takes(x.ep, a) && QueueOk(x.ep) && Honest(y) && SegInv(y)
    requires ReqInv(x) && RespInv(x, y) && PopInv(x, y) && a.d.seg.ReadResp? && a.d.seg.last
    ensures PopInv(Advance(x, a), y)
  {
    var p := a.d.psn;
    assert HonestDatagram(a.d, y.log, y.ep.rx);
    assert SegOk(y.ep.sq.wrs, y.ep.sq.wqs, y.log[p]);
    RxAfter(x.ep, a);
    ResponseFindsRead(x, y, p);
    LastIsListed(x, y, p);
    HeapAfter(x.ep, a);
    PopStateAfterLast(x, y, Advance(x, a), p, y.log[p].owner.msn - 1);
  }

  lemma PopStateAfterLast(x: Side, y: Side, x': Side, p: nat, k: nat)
    requires PopState(x.popped, x.ep.sq.heap, y.last, x.ep.rx) && !Accepted(x.ep.rx, p)
    requires k < |y.last| && y.last[k] == p && x.ep.rx.ack <= x'.ep.rx.ack
    requires forall q :: Accepted(x'.ep.rx, q) <==> Accepted(x.ep.rx, q) || q == p
    requires x'.popped == x.popped && x'.ep.sq.heap == x.ep.sq.heap + multiset{p}
    ensures PopState(x'.popped, x'.ep.sq.heap, y.last, x'.ep.rx)
  {
  }

  lemma RequesterKeepsPops(x: Side, y: Side, a: Action)
    requires CanStep(x, y, a) && QueueOk(x.ep) && Honest(y) && SegInv(y)
    requires ReqInv(x) && RespInv(x, y) && PopInv(x, y)
    ensures PopInv(Advance(x, a), y)
    ensures a.PopRead? ==> |x.popped| < |x.reqs|
  {
    if a.PopRead? {
      PopIsNext(x, y);
      assert |y.last| in y.recvd;
      PopInvAfterPop(x, y);
    } else if Takes(x.ep, a) {
      if a.d.seg.ReadResp? && a.d.seg.last { PopInvAfterLast(x, y, a); } else { PopInvAfterOther(x, y, a); }
    } else {
      RxAfter(x.ep, a);
      HeapAfter(x.ep, a);
    }
  }

  lemma ResponderKeepsPops(x: Side, y: Side, a: Action)
    requires Wf(y.ep) && Enabled(y.ep, a) && PopInv(x, y) && Heard(y.log, x.ep.rx) && |y.log| == Next(y.ep.tx)
    ensures PopInv(x, Advance(y, a))
  {
    var n, y' := |x.popped|, Advance(y, a);
    forall p | p in x.ep.sq.heap ensures InTail(y'.last, n, p) {
      var k :| n <= k < |y.last| && y.last[k] == p;
      assert y'.last[k] == p;
    }
    if Accepted(x.ep.rx, |y.log|) { BelowTop(x.ep.rx, |y.log|); }
  }
}
