/** The send work queue: posting, activation, acknowledgement accounting and in-order
    completion. Work requests are named by their posting index. */
module SendQueue {
  import opened Iov
  import opened Ddp

  datatype Op = OpSend | OpWrite(stag: nat, to: nat) | OpRead(req: ReadInfo)

  /** A work request as the application posted it. */
  datatype Wr = Wr(op: Op, iov: seq<seq<byte>>, signaled: bool)

  datatype WqState = Init | Transfer | Wait | Complete

  /** The fields of a send WQE that change: state, msn, bytes_sent and bytes_acked. */
  datatype Wq = Wq(state: WqState, msn: nat, sent: nat, acked: nat)

  const WQ_START := Wq(Init, 0, 0, 0)

  datatype SendCqe = SendCqe(w: nat, ok: bool)

  /** queue is the posted ring, active the active list, retired the WQEs given back to the
      free ring in that order, and heap the pending last-segment numbers of READ responses. */
  datatype SendQ = SendQ(
    wrs: seq<Wr>, wqs: seq<Wq>, queue: seq<nat>, active: seq<nat>, retired: seq<nat>,
    sendMsn: nat, readMsn: nat, ordActive: nat, heap: multiset<nat>, cqes: seq<SendCqe>)

  const SENDQ_START := SendQ([], [], [], [], [], 1, 1, 0, multiset{}, [])

  function Total(wr: Wr): nat {
    |Flat(wr.iov)|
  }

  /** Every posted WQE is in exactly one place, and the places are in posting order: first
      the retired ones, then the active list, then the posted ring. */
  ghost predicate Ordered(q: SendQ) {
    && |q.wqs| == |q.wrs|
    && |q.retired| + |q.active| + |q.queue| == |q.wrs|
    && (forall k :: 0 <= k < |q.retired| ==> q.retired[k] == k)
    && (forall k :: 0 <= k < |q.active| ==> q.active[k] == |q.retired| + k)
    && (forall k :: 0 <= k < |q.queue| ==> q.queue[k] == |q.retired| + |q.active| + k)
  }

  function Started(q: SendQ): nat {
    |q.retired| + |q.active|
  }

  /** Indices in the lists name posted WQEs: all that the operations need. */
  predicate InTable(q: SendQ) {
    && |q.wqs| == |q.wrs|
    && (forall k :: 0 <= k < |q.active| ==> q.active[k] < |q.wrs|)
    && (forall k :: 0 <= k < |q.queue| ==> q.queue[k] < |q.wrs|)
  }

  // ---- The operations ----

  function Post(q: SendQ, wr: Wr): SendQ {
    q.(wrs := q.wrs + [wr], wqs := q.wqs + [WQ_START], queue := q.queue + [|q.wrs|])
  }

  predicate CanActivate(q: SendQ)
    requires InTable(q)
  {
    q.queue != [] && forall k :: 0 <= k < |q.active| ==> q.wqs[q.active[k]].state != Transfer
  }

  function Activate(q: SendQ): SendQ
    requires InTable(q) && q.queue != []
  {
    var w := q.queue[0];
    var op := q.wrs[w].op;
    var msn := if op.OpSend? then q.sendMsn else if op.OpRead? then q.readMsn else 0;
    q.(queue := q.queue[1..],
       active := q.active + [w],
       wqs := q.wqs[w := q.wqs[w].(state := Transfer, msn := msn)],
       sendMsn := if op.OpSend? then q.sendMsn + 1 else q.sendMsn,
       readMsn := if op.OpRead? then q.readMsn + 1 else q.readMsn)
  }

  /** try_complete_wqe: only the head of the active list completes. */
  function TryComplete(q: SendQ, w: nat): SendQ
    requires w < |q.wrs|
  {
    if q.active != [] && q.active[0] == w then
      q.(active := q.active[1..],
         retired := q.retired + [w],
         cqes := if q.wrs[w].signaled then q.cqes + [SendCqe(w, true)] else q.cqes,
         ordActive := if q.wrs[w].op.OpRead? && q.ordActive > 0 then q.ordActive - 1 else q.ordActive)
    else q
  }

  /** do_process_ack. */
  function ProcessAck(q: SendQ, w: nat, len: nat): SendQ
    requires w < |q.wrs| == |q.wqs|
  {
    var wq := q.wqs[w].(acked := q.wqs[w].acked + len);
    if !q.wrs[w].op.OpRead? && wq.acked == Total(q.wrs[w]) then
      TryComplete(q.(wqs := q.wqs[w := wq.(state := Complete)]), w)
    else
      q.(wqs := q.wqs[w := wq])
  }

  /** The bookkeeping after len more bytes of w went out. */
  function AdvanceSent(q: SendQ, w: nat, len: nat): SendQ
    requires w < |q.wrs| == |q.wqs|
  {
    var wq := q.wqs[w].(sent := q.wqs[w].sent + len);
    q.(wqs := q.wqs[w := if wq.sent == Total(q.wrs[w]) then wq.(state := Wait) else wq])
  }

  /** do_rdmap_read_request, once the request may go out. */
  function StartRead(q: SendQ, w: nat): SendQ
    requires w < |q.wqs|
  {
    q.(ordActive := q.ordActive + 1, wqs := q.wqs[w := q.wqs[w].(state := Wait)])
  }

  /** The position of the first READ in the active list, or its length. */
  function FirstRead(wrs: seq<Wr>, active: seq<nat>): (k: nat)
    requires forall i :: 0 <= i < |active| ==> active[i] < |wrs|
    ensures k <= |active|
    ensures forall i :: 0 <= i < k ==> !wrs[active[i]].op.OpRead?
    ensures k < |active| ==> wrs[active[k]].op.OpRead?
  {
    if active == [] then 0
    else if wrs[active[0]].op.OpRead? then 0
    else 1 + FirstRead(wrs, active[1..])
  }

  /** One turn of the read-completion loop of progress_qp, for the popped number p. */
  function CompleteRead(q: SendQ, p: nat): SendQ
    requires InTable(q)
  {
    var k := FirstRead(q.wrs, q.active);
    var q' := q.(heap := q.heap - multiset{p});
    if k < |q.active| then
      var w := q.active[k];
      TryComplete(q'.(wqs := q.wqs[w := q.wqs[w].(state := Complete)]), w)
    else q'
  }

  function FlushCqes(from: nat, to: nat): seq<SendCqe>
    requires from <= to
  {
    seq(to - from, i requires 0 <= i < to - from => SendCqe(from + i, false))
  }

  function AsFlushed(ws: seq<nat>): seq<SendCqe> {
    seq(|ws|, i requires 0 <= i < |ws| => SendCqe(ws[i], false))
  }

  /** sq_flush: everything posted becomes active, and everything active is flushed in order. */
  function Flush(q: SendQ): SendQ {
    var all := q.active + q.queue;
    q.(queue := [], active := [], retired := q.retired + all, cqes := q.cqes + AsFlushed(all))
  }

  // ---- Accounting ----

  /** The payload bytes of w among datagrams that are not acknowledged yet. */
  function Unacked(pend: seq<Pending>, w: nat): nat {
    if pend == [] then 0
    else (if pend[0].owner == ByWqe(w) then DdpLength(pend[0].seg) else 0) + Unacked(pend[1..], w)
  }

  lemma {:induction false} UnackedSnoc(pend: seq<Pending>, d: Pending, w: nat)
    ensures Unacked(pend + [d], w) == Unacked(pend, w) + (if d.owner == ByWqe(w) then DdpLength(d.seg) else 0)
  {
    if pend == [] {
      assert [d][1..] == [];
    } else {
      assert (pend + [d])[1..] == pend[1..] + [d];
      UnackedSnoc(pend[1..], d, w);
    }
  }

  /** What holds of one WQE. A transfer completes exactly when it has bytes and all of them
      are acknowledged. */
  predicate WqOk(wr: Wr, wq: Wq) {
    && wq.acked <= wq.sent
    && (wq.state.Init? ==> wq.sent == 0)
    && (wr.op.OpRead? ==> wq.sent == 0)
    && (!wr.op.OpRead? ==>
          && wq.sent <= Total(wr)
          && (wq.state.Wait? ==> wq.sent == Total(wr))
          && (wq.state.Transfer? ==> wq.sent < Total(wr) || Total(wr) == 0)
          && (wq.state.Complete? <==> wq.acked == Total(wr) && Total(wr) > 0))
  }

  /** Byte conservation: acknowledged and in flight together are what was sent. */
  ghost predicate Accounts(q: SendQ, pend: seq<Pending>)
    requires |q.wqs| == |q.wrs|
  {
    forall w {:trigger q.wqs[w]} :: 0 <= w < |q.wrs| ==>
      WqOk(q.wrs[w], q.wqs[w]) && q.wqs[w].acked + Unacked(pend, w) == q.wqs[w].sent
  }

  predicate OwnedOk(wrs: seq<Wr>, d: Pending) {
    d.owner.ByWqe? ==>
      && d.owner.w < |wrs|
      && (wrs[d.owner.w].op.OpRead? <==> d.seg.ReadReq?)
      && (!d.seg.ReadReq? ==> |d.seg.data| > 0)
  }

  /** The states in the lists; only the newest active WQE can still be transferring. */
  ghost predicate Staged(q: SendQ)
    requires Ordered(q)
  {
    && (forall w :: Started(q) <= w < |q.wrs| ==> q.wqs[w].state.Init?)
    && (forall w :: |q.retired| <= w < Started(q) ==> !q.wqs[w].state.Init?)
    && (forall w :: |q.retired| <= w < Started(q) - 1 ==> !q.wqs[w].state.Transfer?)
  }

  /** The completions of the first n posted WQEs when all succeed: one for each that asked. */
  function SuccessCqes(wrs: seq<Wr>, n: nat): seq<SendCqe>
    requires n <= |wrs|
  {
    if n == 0 then [] else SuccessCqes(wrs, n - 1) + (if wrs[n - 1].signaled then [SendCqe(n - 1, true)] else [])
  }

  lemma {:induction false} SuccessCqesGrow(wrs: seq<Wr>, wr: Wr, n: nat)
    requires n <= |wrs|
    ensures SuccessCqes(wrs + [wr], n) == SuccessCqes(wrs, n)
  {
    if n > 0 { SuccessCqesGrow(wrs, wr, n - 1); }
  }

  /** While the queue pair is open every retired WQE completed, and the completion queue got
      exactly the completions asked for, in posting order. */
  ghost predicate Retired(q: SendQ)
    requires Ordered(q)
  {
    && (forall w :: 0 <= w < |q.retired| ==> q.wqs[w].state.Complete?)
    && q.cqes == SuccessCqes(q.wrs, |q.retired|)
  }

  ghost predicate SqInv(q: SendQ, pend: seq<Pending>) {
    Ordered(q) && Accounts(q, pend) && Staged(q) && Retired(q)
  }

  /** The first n WQEs had completed, and got the successes asked for; all the others got flush
      errors. */
  ghost predicate FlushedFrom(q: SendQ, n: nat)
    requires |q.wqs| == |q.wrs|
  {
    && n <= |q.wrs| && q.cqes == SuccessCqes(q.wrs, n) + FlushCqes(n, |q.wrs|)
    && forall w :: 0 <= w < n ==> q.wqs[w].state.Complete? && WqOk(q.wrs[w], q.wqs[w])
  }

  ghost predicate Flushed(q: SendQ) {
    Ordered(q) && q.active == [] && q.queue == [] && exists n: nat :: FlushedFrom(q, n)
  }

  // ---- Every operation keeps the invariant ----

  lemma PostKeeps(q: SendQ, pend: seq<Pending>, wr: Wr)
    requires SqInv(q, pend)
    requires forall k :: 0 <= k < |pend| ==> OwnedOk(q.wrs, pend[k])
    ensures SqInv(Post(q, wr), pend)
  {
    var q' := Post(q, wr);
    SuccessCqesGrow(q.wrs, wr, |q.retired|);
    UnackedStranger(pend, |q.wrs|);
    forall w | 0 <= w < |q'.wrs|
      ensures WqOk(q'.wrs[w], q'.wqs[w]) && q'.wqs[w].acked + Unacked(pend, w) == q'.wqs[w].sent
    {
      if w < |q.wrs| { assert q'.wqs[w] == q.wqs[w]; }
    }
  }

  lemma {:induction false} UnackedStranger(pend: seq<Pending>, w: nat)
    requires forall k :: 0 <= k < |pend| ==> pend[k].owner != ByWqe(w)
    ensures Unacked(pend, w) == 0
  {
    if pend != [] { UnackedStranger(pend[1..], w); }
  }

  lemma ActivateKeeps(q: SendQ, pend: seq<Pending>)
    requires SqInv(q, pend) && InTable(q) && CanActivate(q)
    ensures SqInv(Activate(q), pend)
  {
    var q' := Activate(q);
    var w := q.queue[0];
    assert w == Started(q) && q.wqs[w].state.Init?;
    assert forall v :: 0 <= v < |q.wrs| && v != w ==> q'.wqs[v] == q.wqs[v];
    forall v | |q.retired| <= v < Started(q) ensures !q.wqs[v].state.Transfer? {
      assert q.active[v - |q.retired|] == v;
    }
  }

  lemma TryCompleteKeeps(q: SendQ, pend: seq<Pending>, w: nat)
    requires SqInv(q, pend) && w < |q.wrs| && q.wqs[w].state.Complete?
    ensures SqInv(TryComplete(q, w), pend)
  {
    if q.active != [] && q.active[0] == w {
      var q' := TryComplete(q, w);
      assert w == |q.retired| && q'.wqs == q.wqs;
      assert forall k :: 0 <= k < |q'.active| ==> q'.active[k] == q.active[k + 1];
    }
  }

  /** Acknowledging the datagram at the head of the ring: the asserted relation of
      bytes_acked to bytes_sent and the asserted WAIT state hold, and so does the invariant. */
  lemma ProcessAckKeeps(q: SendQ, pend: seq<Pending>)
    requires SqInv(q, pend) && pend != [] && OwnedOk(q.wrs, pend[0])
    requires pend[0].owner.ByWqe?
    ensures var w, len := pend[0].owner.w, DdpLength(pend[0].seg);
            && q.wqs[w].acked + len <= q.wqs[w].sent
            && (!q.wrs[w].op.OpRead? && q.wqs[w].acked + len == Total(q.wrs[w]) ==> q.wqs[w].state.Wait?)
            && SqInv(ProcessAck(q, w, len), pend[1..])
  {
    var w, len := pend[0].owner.w, DdpLength(pend[0].seg);
    var wq := q.wqs[w].(acked := q.wqs[w].acked + len);
    var done := !q.wrs[w].op.OpRead? && wq.acked == Total(q.wrs[w]);
    assert WqOk(q.wrs[w], q.wqs[w]);
    var wq' := if done then wq.(state := Complete) else wq;
    var q1 := q.(wqs := q.wqs[w := wq']);
    assert Accounts(q1, pend[1..]) by {
      forall v | 0 <= v < |q1.wrs|
        ensures WqOk(q1.wrs[v], q1.wqs[v]) && q1.wqs[v].acked + Unacked(pend[1..], v) == q1.wqs[v].sent
      {
        assert q.wqs[v].acked + Unacked(pend, v) == q.wqs[v].sent;
      }
    }
    if done { TryCompleteKeeps(q1, pend[1..], w); }
  }

  /** The ring sheds a datagram that belongs to no work request. */
  lemma AccountsDropRead(q: SendQ, pend: seq<Pending>)
    requires SqInv(q, pend) && pend != [] && pend[0].owner.ByRead?
    ensures SqInv(q, pend[1..])
  {
  }

  lemma AccountsSnocRead(q: SendQ, pend: seq<Pending>, d: Pending)
    requires SqInv(q, pend) && d.owner.ByRead?
    ensures SqInv(q, pend + [d])
  {
    forall v | 0 <= v < |q.wrs|
      ensures WqOk(q.wrs[v], q.wqs[v]) && q.wqs[v].acked + Unacked(pend + [d], v) == q.wqs[v].sent
    {
      UnackedSnoc(pend, d, v);
    }
  }

  /** A new segment of an active transfer enters the ring. */
  lemma AdvanceKeeps(q: SendQ, pend: seq<Pending>, d: Pending)
    requires SqInv(q, pend) && d.owner.ByWqe?
    requires |q.retired| <= d.owner.w < Started(q)
    requires !q.wrs[d.owner.w].op.OpRead? && !q.wqs[d.owner.w].state.Complete?
    requires !d.seg.ReadReq? && DdpLength(d.seg) > 0
    requires q.wqs[d.owner.w].sent + DdpLength(d.seg) <= Total(q.wrs[d.owner.w])
    ensures q.wqs[d.owner.w].state.Transfer? && d.owner.w == Started(q) - 1
    ensures SqInv(AdvanceSent(q, d.owner.w, DdpLength(d.seg)), pend + [d])
  {
    var w, len := d.owner.w, DdpLength(d.seg);
    var q' := AdvanceSent(q, w, len);
    assert WqOk(q.wrs[w], q.wqs[w]);
    forall v | 0 <= v < |q.wrs|
      ensures WqOk(q'.wrs[v], q'.wqs[v]) && q'.wqs[v].acked + Unacked(pend + [d], v) == q'.wqs[v].sent
    {
      UnackedSnoc(pend, d, v);
      assert q.wqs[v].acked + Unacked(pend, v) == q.wqs[v].sent;
    }
  }

  /** do_rdmap_send on a WQE with nothing left to send. */
  lemma SettleKeeps(q: SendQ, pend: seq<Pending>, w: nat)
    requires SqInv(q, pend) && |q.retired| <= w < Started(q)
    requires !q.wrs[w].op.OpRead? && !q.wqs[w].state.Complete? && q.wqs[w].sent == Total(q.wrs[w])
    ensures SqInv(AdvanceSent(q, w, 0), pend)
  {
  }

  lemma StartReadKeeps(q: SendQ, pend: seq<Pending>, d: Pending)
    requires SqInv(q, pend) && d.owner.ByWqe? && d.seg.ReadReq?
    requires |q.retired| <= d.owner.w < Started(q) && q.wrs[d.owner.w].op.OpRead?
    ensures SqInv(StartRead(q, d.owner.w), pend + [d])
  {
    var q' := StartRead(q, d.owner.w);
    forall v | 0 <= v < |q.wrs|
      ensures WqOk(q'.wrs[v], q'.wqs[v]) && q'.wqs[v].acked + Unacked(pend + [d], v) == q'.wqs[v].sent
    {
      UnackedSnoc(pend, d, v);
      assert q.wqs[v].acked + Unacked(pend, v) == q.wqs[v].sent;
    }
  }

  lemma CompleteReadKeeps(q: SendQ, pend: seq<Pending>, p: nat)
    requires SqInv(q, pend) && InTable(q)
    ensures SqInv(CompleteRead(q, p), pend)
  {
    var k := FirstRead(q.wrs, q.active);
    var q' := q.(heap := q.heap - multiset{p});
    if k < |q.active| {
      var w := q.active[k];
      var q1 := q'.(wqs := q.wqs[w := q.wqs[w].(state := Complete)]);
      assert forall v :: 0 <= v < |q.wrs| && v != w ==> q1.wqs[v] == q.wqs[v];
      assert WqOk(q1.wrs[w], q1.wqs[w]) by { assert WqOk(q.wrs[w], q.wqs[w]); }
      TryCompleteKeeps(q1, pend, w);
    }
  }

  /** A pop need not complete anything: the search for the oldest READ does not ask whether it is
      COMPLETE already. Unless the head of the active list is such a READ, which then retires, the
      pop changes no request and retires none if and only if the oldest READ was COMPLETE. */
  lemma PopCompletesNothingIff(q: SendQ, p: nat)
    requires Ordered(q) && InTable(q) && FirstRead(q.wrs, q.active) < |q.active|
    requires !(q.wrs[q.active[0]].op.OpRead? && q.wqs[q.active[0]].state.Complete?)
    ensures CompleteRead(q, p).wqs == q.wqs && CompleteRead(q, p).retired == q.retired <==>
              q.wqs[q.active[FirstRead(q.wrs, q.active)]].state.Complete?
  {
    var w := q.active[FirstRead(q.wrs, q.active)];
    var wqs' := q.wqs[w := q.wqs[w].(state := Complete)];
    assert CompleteRead(q, p).wqs == wqs' && wqs'[w].state.Complete?;
  }

  lemma FlushCompletes(q: SendQ, pend: seq<Pending>)
    requires SqInv(q, pend)
    ensures Flushed(Flush(q)) && FlushedFrom(Flush(q), |q.retired|)
  {
    var n := |q.retired|;
    assert AsFlushed(q.active + q.queue) == FlushCqes(n, |q.wrs|);
    assert forall w :: 0 <= w < n ==> WqOk(q.wrs[w], q.wqs[w]);
    assert FlushedFrom(Flush(q), n);
  }
}
