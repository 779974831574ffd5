/** Every step of an endpoint keeps the send queue's accounts and its order of completion. */
module Accounting {
  import opened Ddp
  import opened SendQueue
  import opened Endpoint

  ghost predicate RingOwned(e: Ep) {
    forall k :: 0 <= k < |e.tx.pend| ==> OwnedOk(e.sq.wrs, e.tx.pend[k])
  }

  ghost predicate QueueOk(e: Ep) {
    if e.closed then Flushed(e.sq) else SqInv(e.sq, e.tx.pend)
  }

  lemma ActiveRange(q: SendQ, w: nat)
    requires Ordered(q) && IsActive(q, w)
    ensures |q.retired| <= w < Started(q) <= |q.wrs|
  {
  }

  lemma SegmentSize(wr: Wr, wq: Wq, mtu: nat)
    requires wq.sent < Total(wr) && mtu > 0
    ensures !NextSegment(wr, wq, mtu).ReadReq? && !NextSegment(wr, wq, mtu).ReadResp?
    ensures 0 < DdpLength(NextSegment(wr, wq, mtu)) <= Total(wr) - wq.sent
  {
  }

  lemma QueueAfterSend(e: Ep, a: Action)
    requires Wf(e) && Enabled(e, a) && QueueOk(e) && (a.SendNext? || a.Settle? || a.RequestRead? || a.Respond?)
    ensures QueueOk(Do(e, a))
  {
    if a.Respond? {
      AccountsSnocRead(e.sq, e.tx.pend, NewPending(e, a)[0]);
    } else {
      ActiveRange(e.sq, a.w);
      if a.SendNext? {
        SegmentSize(e.sq.wrs[a.w], e.sq.wqs[a.w], e.cfg.mtu);
        AdvanceKeeps(e.sq, e.tx.pend, NewPending(e, a)[0]);
      } else if a.Settle? {
        SettleKeeps(e.sq, e.tx.pend, a.w);
      } else {
        StartReadKeeps(e.sq, e.tx.pend, NewPending(e, a)[0]);
      }
    }
  }

  lemma QueueAfterFree(e: Ep)
    requires Wf(e) && Enabled(e, FreeAcked) && QueueOk(e) && RingOwned(e)
    ensures QueueOk(Do(e, FreeAcked))
  {
    if e.tx.pend[0].owner.ByWqe? {
      ProcessAckKeeps(e.sq, e.tx.pend);
    } else {
      AccountsDropRead(e.sq, e.tx.pend);
    }
  }

  lemma QueueAfterReceipt(e: Ep, d: Datagram)
    requires Wf(e) && Enabled(e, Receive(d)) && QueueOk(e)
    ensures QueueOk(Do(e, Receive(d)))
    ensures Do(e, Receive(d)).tx.pend == e.tx.pend
    ensures Do(e, Receive(d)).sq == e.sq.(heap := Do(e, Receive(d)).sq.heap)
  {
    var e' := Do(e, Receive(d));
    assert e'.sq.wqs == e.sq.wqs && e'.sq.wrs == e.sq.wrs;
  }

  lemma QueueKeeps(e: Ep, a: Action)
    requires Wf(e) && Enabled(e, a) && QueueOk(e) && RingOwned(e)
    ensures QueueOk(Do(e, a))
  {
    match a
    case PostSendWr(wr) => PostKeeps(e.sq, e.tx.pend, wr);
    case Receive(d) => QueueAfterReceipt(e, d);
    case FreeAcked => QueueAfterFree(e);
    case SendNext(_) => QueueAfterSend(e, a);
    case Settle(_) => QueueAfterSend(e, a);
    case RequestRead(_) => QueueAfterSend(e, a);
    case Respond(_) => QueueAfterSend(e, a);
    case ActivateWqe => ActivateKeeps(e.sq, e.tx.pend);
    case Retire(w) =>
      ActiveRange(e.sq, w);
      TryCompleteKeeps(e.sq, e.tx.pend, w);
    case PopRead => CompleteReadKeeps(e.sq, e.tx.pend, MinOf(e.sq.heap));
    case Shutdown => FlushCompletes(e.sq, e.tx.pend);
    case PostRecvWr(_) =>
    case EndSweep =>
    case Resend(_) =>
    case EmitAck =>
    case EmitSack =>
  }

  /** The work requests, the bytes sent and the MSNs, which only posting, activation and
      sending touch. */
  ghost predicate SameSends(q: SendQ, q': SendQ) {
    && q'.wrs == q.wrs && |q'.wqs| == |q.wqs| && q'.sendMsn == q.sendMsn && q'.readMsn == q.readMsn
    && (forall w :: 0 <= w < |q.wqs| ==> q'.wqs[w].sent == q.wqs[w].sent && q'.wqs[w].msn == q.wqs[w].msn)
    && |q.retired| <= |q'.retired|
  }

  lemma SendsStayInQueue(q: SendQ, w: nat, len: nat, p: nat)
    requires Ordered(q) && InTable(q) && w < |q.wrs|
    ensures SameSends(q, TryComplete(q, w)) && Started(TryComplete(q, w)) == Started(q)
    ensures SameSends(q, ProcessAck(q, w, len)) && Started(ProcessAck(q, w, len)) == Started(q)
    ensures SameSends(q, CompleteRead(q, p)) && Started(CompleteRead(q, p)) == Started(q)
  {
  }

  lemma SendsStay(e: Ep, a: Action)
    requires Wf(e) && Enabled(e, a) && QueueOk(e)
    requires !a.PostSendWr? && !a.ActivateWqe? && !a.SendNext?
    ensures SameSends(e.sq, Do(e, a).sq)
    ensures !a.Shutdown? ==> Started(Do(e, a).sq) == Started(e.sq)
  {
    match a
    case FreeAcked =>
      var d := e.tx.pend[0];
      if d.owner.ByWqe? { SendsStayInQueue(e.sq, d.owner.w, DdpLength(d.seg), 0); }
    case Retire(w) =>
      ActiveRange(e.sq, w);
      SendsStayInQueue(e.sq, w, 0, 0);
    case PopRead =>
      if e.sq.wrs != [] { SendsStayInQueue(e.sq, 0, 0, MinOf(e.sq.heap)); }
    case Settle(w) => ActiveRange(e.sq, w);
    case RequestRead(w) => ActiveRange(e.sq, w);
    case _ =>
  }
}
