/** One endpoint of a connection and the steps its progress thread and its application take.
    The steps are the turns of the loops of progress_qp and the functions it calls. */
module Endpoint {
  import opened Iov
  import opened Ddp
  import opened TrpReceive
  import opened SendQueue
  import opened RecvQueue
  import opened ReadQueue

  /** size is tx_pending_size; mtu, ordMax and irdMax are fixed when the connection starts. */
  datatype Config = Config(size: nat, mtu: nat, ordMax: nat, irdMax: nat)

  /** The transmit half of the transport. pend holds the datagrams of the retransmit ring,
      oldest first, so that pend[k] has sequence number head + k; acked is
      send_last_acked_psn, limit is send_max_psn; swept says that no datagram was processed
      since the ring was last swept; quiet are the datagrams that will not be retransmitted. */
  datatype Tx = Tx(head: nat, pend: seq<Pending>, acked: nat, limit: nat, swept: bool, quiet: set<nat>)

  datatype Ep = Ep(cfg: Config, tx: Tx, rx: Rx, sq: SendQ, rq: RecvQ, rr: ReadQ, closed: bool)

  /** send_next_psn. */
  function Next(tx: Tx): nat {
    tx.head + |tx.pend|
  }

  function Start(cfg: Config): Ep {
    Ep(cfg, Tx(0, [], 0, cfg.size, false, {}), RX_START, SENDQ_START, RECVQ_START, Idle(cfg.irdMax), false)
  }

  datatype Action =
    | PostSendWr(wr: Wr)         // the application posts a send, write or read
    | PostRecvWr(bufs: seq<seq<byte>>)
    | Receive(d: Datagram)       // process_data_packet
    | FreeAcked                  // one turn of the first loop of sweep_unacked_packets
    | EndSweep                   // ... and its end
    | Resend(psn: nat)           // one turn of its second loop
    | SendNext(w: nat)           // one turn of the loop of do_rdmap_send or do_rdmap_write
    | Settle(w: nat)             // ... when nothing is left to send
    | RequestRead(w: nat)        // do_rdmap_read_request
    | ActivateWqe                // progress_qp takes the next WQE off the posted ring
    | Retire(w: nat)             // progress_send_wqe on a COMPLETE WQE
    | PopRead                    // one turn of the read-completion loop of progress_qp
    | Respond(data: seq<byte>)   // one turn of the loop of respond_rdma_read
    | EmitAck                    // send_trp_ack
    | EmitSack                   // send_trp_sack
    | Shutdown                   // qp_shutdown: both queues are flushed

  /** What the functions below need in order to be defined. */
  predicate Wf(e: Ep) {
    && InTable(e.sq)
    && |e.rr.slots| == e.cfg.irdMax > 0
    && RxOk(e.rx)
    && e.cfg.size > 0 && e.cfg.mtu > 0
  }

  /** The credit check before every send, and the place of sends after the sweep. */
  predicate HasCredit(e: Ep) {
    Next(e.tx) < e.tx.limit && e.tx.swept
  }

  predicate IsActive(q: SendQ, w: nat) {
    w in q.active
  }

  /** The least number in the heap of last-segment numbers. */
  function MinOf(heap: multiset<nat>): (p: nat)
    requires heap != multiset{}
    ensures p in heap && forall q :: q in heap ==> p <= q
  {
    var x :| x in heap;
    HeapHasMin(heap, x);
    var p :| p in heap && forall q :: q in heap ==> p <= q;
    p
  }

  lemma {:induction false} HeapHasMin(heap: multiset<nat>, x: nat)
    requires x in heap
    ensures exists p :: p in heap && forall q :: q in heap ==> p <= q
  {
    if y :| y in heap && y < x {
      HeapHasMin(heap, y);
    }
  }

  predicate Enabled(e: Ep, a: Action)
    requires Wf(e)
  {
    && !e.closed
    && match a
       case PostSendWr(wr) => wr.op.OpRead? ==> wr.op.req.size > 0
       case PostRecvWr(_) => true
       case Receive(_) => true
       case FreeAcked => e.tx.pend != [] && e.tx.head < e.tx.acked
                         && (e.tx.pend[0].owner.ByWqe? ==> e.tx.pend[0].owner.w < |e.sq.wrs|)
       case EndSweep => e.tx.pend == [] || e.tx.acked <= e.tx.head
       case Resend(p) => e.tx.head <= p < Next(e.tx) && p !in e.tx.quiet
       case SendNext(w) => IsActive(e.sq, w) && !e.sq.wrs[w].op.OpRead? && !e.sq.wqs[w].state.Complete?
                           && e.sq.wqs[w].sent < Total(e.sq.wrs[w]) && HasCredit(e)
       case Settle(w) => IsActive(e.sq, w) && !e.sq.wrs[w].op.OpRead? && !e.sq.wqs[w].state.Complete?
                         && e.sq.wqs[w].sent == Total(e.sq.wrs[w])
       case RequestRead(w) => IsActive(e.sq, w) && e.sq.wrs[w].op.OpRead? && e.sq.wqs[w].state.Transfer?
                              && e.sq.ordActive < e.cfg.ordMax && HasCredit(e)
       case ActivateWqe => CanActivate(e.sq)
       case Retire(w) => IsActive(e.sq, w) && e.sq.wqs[w].state.Complete?
       case PopRead => e.sq.heap != multiset{} && MinOf(e.sq.heap) < e.rx.ack
       case Respond(data) => var s := SlotOf(e.rr, e.rr.headMsn);
                             s.active && s.remaining > 0 && |data| == ResponseLength(s, e.cfg.mtu) && HasCredit(e)
       case EmitAck => e.rx.update && !e.rx.missing
       case EmitSack => e.rx.update && e.rx.missing
       case Shutdown => true
  }

  // ---- Sending ----

  /** The next segment of a send or write, cut at the MTU. */
  function NextSegment(wr: Wr, wq: Wq, mtu: nat): Segment
    requires wq.sent <= Total(wr)
  {
    var len := Min(mtu, Total(wr) - wq.sent);
    var data := Flat(wr.iov)[wq.sent..wq.sent + len];
    var last := Total(wr) - wq.sent <= mtu;
    match wr.op
    case OpWrite(stag, to) => WriteSeg(stag, to + wq.sent, last, data)
    case _ => SendSeg(wq.msn, wq.sent, last, data)
  }

  /** The new datagram an action puts into the ring, if any. */
  function NewPending(e: Ep, a: Action): seq<Pending>
    requires Wf(e) && Enabled(e, a)
  {
    match a
    case SendNext(w) => [Pending(NextSegment(e.sq.wrs[w], e.sq.wqs[w], e.cfg.mtu), ByWqe(w))]
    case RequestRead(w) => [Pending(ReadReq(e.sq.wqs[w].msn, e.sq.wrs[w].op.req), ByWqe(w))]
    case Respond(data) => [Pending(ResponseSegment(SlotOf(e.rr, e.rr.headMsn), e.cfg.mtu, data), ByRead(e.rr.headMsn))]
    case _ => []
  }

  /** The datagrams an action puts on the wire. */
  function Sent(e: Ep, a: Action): seq<Datagram>
    requires Wf(e) && Enabled(e, a)
  {
    match a
    case SendNext(_) => [Data(Next(e.tx), e.rx.ack, NewPending(e, a)[0].seg)]
    case RequestRead(_) => [Data(Next(e.tx), e.rx.ack, NewPending(e, a)[0].seg)]
    case Respond(_) => [Data(Next(e.tx), e.rx.ack, NewPending(e, a)[0].seg)]
    case Resend(p) => [Data(p, e.rx.ack, e.tx.pend[p - e.tx.head].seg)]
    case EmitAck => [Ack(Next(e.tx), e.rx.ack)]
    case EmitSack => [Sack(e.rx.lo, e.rx.hi)]
    case _ => []
  }

  /** Every data datagram carries the cumulative acknowledgement. */
  function AckCarried(r: Rx): Rx {
    if r.missing then r else r.(update := false)
  }

  function Transmit(e: Ep, d: Pending): Ep {
    e.(tx := e.tx.(pend := e.tx.pend + [d]), rx := AckCarried(e.rx))
  }

  // ---- Receiving ----

  /** The acknowledgement carried by a datagram is believed as it is, even a stale one. */
  function TakeAck(tx: Tx, ack: nat, size: nat): Tx
    requires size > 0
  {
    tx.(acked := ack, limit := ack + size - 1, swept := false)
  }

  predicate Within(p: nat, lo: nat, hi: nat) {
    lo <= p < hi
  }

  /** maybe_sack_pending, on every datagram of the ring. */
  function TakeSack(tx: Tx, lo: nat, hi: nat): Tx {
    tx.(quiet := tx.quiet + (set p {:trigger Within(p, lo, hi)} | tx.head <= p < Next(tx) && Within(p, lo, hi)))
  }

  predicate ReadIsActive(q: SendQ, stag: nat)
    requires InTable(q)
  {
    exists k :: 0 <= k < |q.active|
                && q.wrs[q.active[k]].op.OpRead? && q.wrs[q.active[k]].op.req.sinkStag == stag
  }

  /** A segment that the transport has accepted goes to its message. */
  function Dispatch(e: Ep, p: nat, seg: Segment): Ep
    requires Wf(e)
  {
    match seg
    case SendSeg(msn, mo, last, data) => e.(rq := ProcessSend(e.rq, msn, mo, last, data, p < e.rx.ack))
    case WriteSeg(_, _, _, _) => e
    case ReadReq(msn, r) => e.(rr := StoreRead(e.rr, msn, r).0)
    case ReadResp(stag, _, last, _) =>
      if last && ReadIsActive(e.sq, stag) then e.(sq := e.sq.(heap := e.sq.heap + multiset{p})) else e
  }

  function Deliver(e: Ep, d: Datagram): Ep
    requires Wf(e)
  {
    match d
    case Sack(lo, hi) => e.(tx := TakeSack(e.tx, lo, hi))
    case Ack(_, a) => e.(tx := TakeAck(e.tx, a, e.cfg.size))
    case Data(p, a, seg) =>
      var e1 := e.(tx := TakeAck(e.tx, a, e.cfg.size));
      var (rx, ok) := RxStep(e.rx, p);
      if ok then Dispatch(e1.(rx := rx), p, seg) else e1
  }

  function Popped(tx: Tx): Tx
    requires tx.pend != []
  {
    tx.(head := tx.head + 1, pend := tx.pend[1..], quiet := tx.quiet - {tx.head})
  }

  /** How many datagrams at the head of the ring are acknowledged. */
  function AckedAtHead(tx: Tx): nat {
    if tx.acked <= tx.head then 0 else Min(tx.acked - tx.head, |tx.pend|)
  }

  /** The first loop of sweep_unacked_packets. */
  function Swept(tx: Tx): (r: Tx)
    ensures r.acked == tx.acked && Next(r) == Next(tx)
    ensures r.pend == [] || r.acked <= r.head
    decreases |tx.pend|
  {
    if tx.pend != [] && tx.head < tx.acked then Swept(Popped(tx)) else tx
  }

  /** Exactly the acknowledged datagrams leave the ring, and of the others nothing changes. */
  lemma {:induction false} SweptIs(tx: Tx)
    ensures var r, n := Swept(tx), AckedAtHead(tx);
            && r == tx.(head := tx.head + n, pend := tx.pend[n..], quiet := r.quiet)
            && forall p :: p in r.quiet <==> p in tx.quiet && !(tx.head <= p < tx.head + n)
    decreases |tx.pend|
  {
    if tx.pend != [] && tx.head < tx.acked { SweptIs(Popped(tx)); }
  }

  /** The head of the ring was acknowledged. */
  function FreeHead(e: Ep): Ep
    requires Wf(e) && e.tx.pend != []
    requires e.tx.pend[0].owner.ByWqe? ==> e.tx.pend[0].owner.w < |e.sq.wrs|
  {
    var d := e.tx.pend[0];
    e.(tx := Popped(e.tx),
       sq := if d.owner.ByWqe? then ProcessAck(e.sq, d.owner.w, DdpLength(d.seg)) else e.sq)
  }

  function Do(e: Ep, a: Action): Ep
    requires Wf(e) && Enabled(e, a)
  {
    match a
    case PostSendWr(wr) => e.(sq := Post(e.sq, wr))
    case PostRecvWr(bufs) => e.(rq := PostRecv(e.rq, bufs))
    case Receive(d) => Deliver(e, d)
    case FreeAcked => FreeHead(e)
    case EndSweep => e.(tx := e.tx.(swept := true))
    case Resend(p) => e.(rx := AckCarried(e.rx))
    case SendNext(w) =>
      var d := NewPending(e, a)[0];
      Transmit(e, d).(sq := AdvanceSent(e.sq, w, DdpLength(d.seg)))
    case Settle(w) => e.(sq := AdvanceSent(e.sq, w, 0))
    case RequestRead(w) => Transmit(e, NewPending(e, a)[0]).(sq := StartRead(e.sq, w))
    case ActivateWqe => e.(sq := Activate(e.sq))
    case Retire(w) => e.(sq := TryComplete(e.sq, w))
    case PopRead => e.(sq := CompleteRead(e.sq, MinOf(e.sq.heap)))
    case Respond(data) => Transmit(e, NewPending(e, a)[0]).(rr := AdvanceHead(e.rr, |data|))
    case EmitAck => e.(rx := e.rx.(update := false))
    case EmitSack => e.(rx := e.rx.(update := false))
    case Shutdown => e.(sq := Flush(e.sq), rq := FlushRecv(e.rq), closed := true)
  }
}
