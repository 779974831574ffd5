/** The progress thread's loops over one queue pair, in place. The object carries, as ghost state,
    the side of the run that it stands for and its peer: every method takes the pair from one state
    of a run to another, so that everything proved about runs holds of it, and the assertions of the
    source hold inside it. */
module QueuePair {
  import opened Iov
  import opened Modular
  import opened Ddp
  import opened TrpReceive
  import opened SendQueue
  import opened RecvQueue
  import opened ReadQueue
  import opened Endpoint
  import opened System
  import opened Accounting
  import opened Invariant
  import opened Theorems
  import opened ReadResults

  /** What is known of an open endpoint in a run. */
  lemma Facts(x: Side, y: Side)
    requires Occurs(x, y)
    ensures Wf(x.ep) && (!x.ep.closed ==> SqInv(x.ep.sq, x.ep.tx.pend) && RingOwned(x.ep))
  {
    OccursWired(x, y);
    OccursQueued(x, y);
    RingKnown(x);
  }

  /** The transfer is marked as waiting for its acknowledgements. */
  function Waiting(q: SendQ, w: nat): SendQ
    requires w < |q.wqs|
  {
    q.(wqs := q.wqs[w := q.wqs[w].(state := Wait)])
  }

  class QueuePair {
    const cfg: Config
    var tx: Tx
    var rx: Rx
    var sq: SendQ
    var rq: RecvQ
    var rr: ReadQ
    var closed: bool
    ghost var side: Side
    ghost var peer: Side

    ghost function View(): Ep
      reads this
    {
      Ep(cfg, tx, rx, sq, rq, rr, closed)
    }

    ghost predicate Valid()
      reads this
    {
      Occurs(side, peer) && side.ep == View() && Wf(View())
    }

    /** A pair whose connection has just been established. */
    constructor (c: Config, ghost other: Side)
      requires Occurs(Fresh(c), other)
      ensures Valid() && !closed && cfg == c && side == Fresh(c) && peer == other
    {
      cfg, tx, rx, closed := c, Tx(0, [], 0, c.size, false, {}), RX_START, false;
      sq, rq, rr := SENDQ_START, RECVQ_START, Idle(c.irdMax);
      side, peer := Fresh(c), other;
      Facts(Fresh(c), other);
    }

    /** Meanwhile the peer takes a step of its own. */
    ghost method PeerStep(a: Action)
      requires Valid() && CanStep(peer, side, a)
      modifies this`peer
      ensures Valid() && peer == Advance(old(peer), a)
    {
      OccursTurned(side, peer);
      OccursNext(peer, side, a);
      peer := Advance(peer, a);
    }

    /** The pair after the same step as in the run. */
    ghost method Step(a: Action)
      requires Occurs(side, peer) && CanStep(side, peer, a)
      modifies this`side
      ensures Occurs(side, peer) && side == Advance(old(side), a) && side.ep == Do(old(side).ep, a) && Wf(side.ep)
    {
      OccursNext(side, peer, a);
      side := Advance(side, a);
      Facts(side, peer);
    }

    /** usiw_post_send, for one request: refused once the pair is shut down. */
    method PostSend(wr: Wr) returns (ok: bool)
      requires Valid() && (wr.op.OpRead? ==> wr.op.req.size > 0)
      modifies this`sq, this`side
      ensures Valid() && (ok <==> !closed) && sq == if ok then Post(old(sq), wr) else old(sq)
    {
      ok := !closed;
      if ok {
        sq := sq.(queue := sq.queue + [|sq.wrs|], wrs := sq.wrs + [wr], wqs := sq.wqs + [WQ_START]);
        Step(PostSendWr(wr));
      }
    }

    /** usiw_post_recv, for one request. */
    method PostReceive(bufs: seq<seq<byte>>) returns (ok: bool)
      requires Valid()
      modifies this`rq, this`side
      ensures Valid() && (ok <==> !closed) && rq == if ok then PostRecv(old(rq), bufs) else old(rq)
    {
      ok := !closed;
      if ok {
        rq := rq.(ring := rq.ring + [Rwqe(|rq.posts|, bufs, 0, 0, 0, false)], posts := rq.posts + [bufs]);
        Step(PostRecvWr(bufs));
      }
    }

    /** send_ddp_segment: the slot it takes is empty, as the source asserts. */
    method SendSegment(d: Pending)
      requires Valid() && HasCredit(View())
      modifies this`tx, this`rx
      ensures |old(tx.pend)| < cfg.size && View() == Transmit(old(View()), d)
    {
      WindowHolds(side, peer);
      assert |tx.pend| < cfg.size;
      tx := tx.(pend := tx.pend + [d]);
      rx := AckCarried(rx);
    }

    /** One turn of the loops of do_rdmap_send and do_rdmap_write. The run marks the transfer as
        waiting with its last segment; the source does so after the loop. */
    method SendNextSegment(w: nat)
      requires Valid() && Wf(View()) && Enabled(View(), SendNext(w))
      modifies this`tx, this`rx, this`sq, this`side
      ensures Occurs(side, peer) && w < |sq.wqs| == |sq.wrs| && sq.wrs == old(sq.wrs)
      ensures side.ep == View().(sq := if sq.wqs[w].sent == Total(sq.wrs[w]) then Waiting(sq, w) else sq)
      ensures old(sq.wqs[w].sent) < sq.wqs[w].sent <= Total(sq.wrs[w])
      ensures Progressed(old(View()), View(), w) && sq.active == old(sq.active) && sq.wqs[w].state == old(sq.wqs[w].state)
      ensures SentNew(old(side), side) && BySends(old(side), side)
    {
      NewStep(side, peer, SendNext(w));
      var seg := NextSegment(sq.wrs[w], sq.wqs[w], cfg.mtu);
      SegmentSize(sq.wrs[w], sq.wqs[w], cfg.mtu);
      SendSegment(Pending(seg, ByWqe(w)));
      sq := sq.(wqs := sq.wqs[w := sq.wqs[w].(sent := sq.wqs[w].sent + DdpLength(seg))]);
      Step(SendNext(w));
    }

    /** The pair is in the state of the run, except that the run has marked a transfer as waiting. */
    ghost predicate Lags(w: nat, behind: bool)
      reads this
    {
      Occurs(side, peer) && w < |sq.wqs| && side.ep == if behind then View().(sq := Waiting(sq, w)) else View()
    }

    /** The loop of do_rdmap_send and do_rdmap_write, which differ only in the header. */
    method SendSegments(w: nat) returns (ghost any: bool)
      requires Valid() && !closed && tx.swept && IsActive(sq, w) && w < |sq.wqs| == |sq.wrs|
      requires !sq.wrs[w].op.OpRead? && !sq.wqs[w].state.Complete?
      modifies this`tx, this`rx, this`sq, this`side
      ensures Progressed(old(View()), View(), w) && sq.active == old(sq.active) && w < |sq.wqs| == |sq.wrs|
      ensures sq.wqs[w].state == old(sq.wqs[w].state) && sq.wqs[w].sent <= Total(sq.wrs[w])
      ensures sq.wqs[w].sent == Total(sq.wrs[w]) || tx.limit <= Next(tx)
      ensures Lags(w, any && sq.wqs[w].sent == Total(sq.wrs[w]))
      ensures SentNew(old(side), side) && BySends(old(side), side)
    {
      Facts(side, peer);
      any := false;
      while sq.wqs[w].sent < Total(sq.wrs[w]) && Next(tx) < tx.limit
        invariant Progressed(old(View()), View(), w) && sq.active == old(sq.active)
        invariant sq.wqs[w].state == old(sq.wqs[w].state) && sq.wqs[w].sent <= Total(sq.wrs[w])
        invariant Lags(w, any && sq.wqs[w].sent == Total(sq.wrs[w]))
        invariant SentNew(old(side), side) && BySends(old(side), side)
        decreases Total(sq.wrs[w]) - sq.wqs[w].sent
      {
        Facts(side, peer);
        ghost var s := side;
        SendNextSegment(w);
        any := true;
        NewThen(old(side), s, side);
      }
    }

    /** do_rdmap_send and do_rdmap_write: segments go out until the message is through or the credit is
        used up. */
    method DoRdmapSend(w: nat)
      requires Valid() && !closed && tx.swept && IsActive(sq, w) && w < |sq.wqs| == |sq.wrs|
      requires !sq.wrs[w].op.OpRead? && !sq.wqs[w].state.Complete?
      modifies this`tx, this`rx, this`sq, this`side
      ensures Valid() && Progressed(old(View()), View(), w) && sq.active == old(sq.active)
      ensures if sq.wqs[w].sent == Total(sq.wrs[w]) then sq.wqs[w].state == Wait
              else tx.limit <= Next(tx) && sq.wqs[w].state == old(sq.wqs[w].state)
      ensures SentNew(old(side), side) && BySends(old(side), side)
    {
      ghost var any := SendSegments(w);
      Facts(side, peer);
      if sq.wqs[w].sent == Total(sq.wrs[w]) {
        if !any {
          ghost var s := side;
          Step(Settle(w));
          NewThen(old(side), s, side);
        }
        sq := Waiting(sq, w);
      }
    }

    /** do_rdmap_read_request: the request goes out if the READ was not sent yet, fewer READs than the
        ORD are outstanding and there is credit. */
    method DoRdmapReadRequest(w: nat)
      requires Valid() && !closed && tx.swept && IsActive(sq, w) && w < |sq.wqs| == |sq.wrs|
      requires sq.wrs[w].op.OpRead?
      modifies this`tx, this`rx, this`sq, this`side
      ensures Valid() && Progressed(old(View()), View(), w) && sq.active == old(sq.active)
      ensures if old(sq.wqs[w].state == Transfer && sq.ordActive < cfg.ordMax && Next(tx) < tx.limit)
              then sq.wqs[w].state == Wait && sq.ordActive == old(sq.ordActive) + 1 && Next(tx) == old(Next(tx)) + 1
              else View() == old(View())
      ensures SentNew(old(side), side) && BySends(old(side), side)
    {
      if sq.wqs[w].state != Transfer || sq.ordActive >= cfg.ordMax || Next(tx) >= tx.limit {
        return;
      }
      Facts(side, peer);
      NewStep(side, peer, RequestRead(w));
      SendSegment(Pending(ReadReq(sq.wqs[w].msn, sq.wrs[w].op.req), ByWqe(w)));
      sq := sq.(ordActive := sq.ordActive + 1, wqs := sq.wqs[w := sq.wqs[w].(state := Wait)]);
      Step(RequestRead(w));
    }

    /** try_complete_wqe on a WQE that is COMPLETE: it leaves the queue only from the head of the active
        list. The source's assertion on ord_active holds. */
    method TryCompleteWqe(w: nat)
      requires Occurs(side, peer) && !side.ep.closed && w < |sq.wqs| == |sq.wrs|
      requires sq.active == side.ep.sq.active && sq.wrs == side.ep.sq.wrs && sq.ordActive == side.ep.sq.ordActive
      requires w < |side.ep.sq.wqs| && (sq.wrs[w].op.OpRead? ==> !side.ep.sq.wqs[w].state.Transfer?)
      modifies this`sq
      ensures sq == TryComplete(old(sq), w)
    {
      if sq.active != [] && sq.active[0] == w {
        if sq.wrs[w].signaled {
          sq := sq.(cqes := sq.cqes + [SendCqe(w, true)]);
        }
        sq := sq.(active := sq.active[1..], retired := sq.retired + [w]);
        if sq.wrs[w].op.OpRead? {
          Facts(side, peer);
          SentReadIsCounted(side, peer);
          assert sq.ordActive > 0;
          sq := sq.(ordActive := sq.ordActive - 1);
        }
      }
    }

    /** progress_send_wqe. */
    method ProgressSendWqe(w: nat)
      requires Valid() && !closed && tx.swept && IsActive(sq, w)
      modifies this`tx, this`rx, this`sq, this`side
      ensures Valid() && Progressed(old(View()), View(), w)
      ensures sq.active == old(sq.active) && sq.active[0] == w ==> sq.wqs[w].state != Complete
      ensures sq.active != old(sq.active) ==> sq.wqs[w].state == Complete
      ensures Through(sq, tx, cfg.ordMax, w) && SentNew(old(side), side) && BySends(old(side), side)
    {
      Facts(side, peer);
      ActiveRange(sq, w);
      if sq.wqs[w].state == Complete {
        TryCompleteWqe(w);
        Step(Retire(w));
      } else if sq.wrs[w].op.OpRead? {
        DoRdmapReadRequest(w);
      } else {
        DoRdmapSend(w);
      }
    }

    /** do_process_ack for the datagram at the head of the ring. Both of its assertions hold. */
    method DoProcessAck(w: nat, len: nat)
      requires Valid() && !closed && tx.pend != [] && w < |sq.wqs| == |sq.wrs|
      requires tx.pend[0].owner == ByWqe(w) && len == DdpLength(tx.pend[0].seg)
      modifies this`sq
      ensures sq == ProcessAck(old(sq), w, len)
    {
      Facts(side, peer);
      ProcessAckKeeps(sq, tx.pend);
      sq := sq.(wqs := sq.wqs[w := sq.wqs[w].(acked := sq.wqs[w].acked + len)]);
      assert sq.wqs[w].acked <= sq.wqs[w].sent;
      if !sq.wrs[w].op.OpRead? && sq.wqs[w].acked == Total(sq.wrs[w]) {
        assert sq.wqs[w].state == Wait;
        sq := sq.(wqs := sq.wqs[w := sq.wqs[w].(state := Complete)]);
        TryCompleteWqe(w);
      }
    }

    /** One turn of the first loop of sweep_unacked_packets: the acknowledged head leaves the ring. */
    method FreeAckedHead()
      requires Valid() && !closed && tx.pend != [] && tx.head < tx.acked
      modifies this`tx, this`sq, this`side
      ensures Valid() && tx == Popped(old(tx)) && sq.queue == old(sq.queue) && sq.heap == old(sq.heap)
      ensures Silent(old(side), side)
    {
      Facts(side, peer);
      var d := tx.pend[0];
      assert OwnedOk(sq.wrs, d);
      if d.owner.ByWqe? {
        DoProcessAck(d.owner.w, DdpLength(d.seg));
      }
      tx := Popped(tx);
      Step(FreeAcked);
    }

    /** The first loop of sweep_unacked_packets: everything acknowledged at the head of the ring leaves
        it. The bound on the number of turns never cuts the loop short. */
    method SweepHead() returns (count: nat)
      requires Valid() && !closed
      modifies this`tx, this`sq, this`side
      ensures Valid() && tx == Swept(old(tx)).(swept := true) && count + |tx.pend| == |old(tx.pend)|
      ensures sq.queue == old(sq.queue) && sq.heap == old(sq.heap) && Silent(old(side), side)
    {
      WindowHolds(side, peer);
      count := 0;
      while count < cfg.size && tx.pend != []
        invariant Valid() && count + |tx.pend| == |old(tx.pend)| && Swept(tx) == Swept(old(tx))
        invariant sq.queue == old(sq.queue) && sq.heap == old(sq.heap) && Silent(old(side), side)
        decreases |tx.pend|
      {
        if tx.head >= tx.acked {
          break;
        }
        FreeAckedHead();
        count := count + 1;
      }
      Facts(side, peer);
      tx := tx.(swept := true);
      Step(EndSweep);
    }

    /** One turn of the second loop of sweep_unacked_packets. */
    method ResendIfDue(k: nat, due: set<nat>)
      requires Valid() && !closed && k < |tx.pend|
      modifies this`rx, this`side
      ensures Valid() && rx == (if IsDue(tx, due, k) then AckCarried(old(rx)) else old(rx))
      ensures side.out == old(side.out) + ResentAt(tx, rx.ack, due, k) && side.log == old(side.log)
    {
      if tx.head + k in due && tx.head + k !in tx.quiet {
        rx := AckCarried(rx);
        Step(Resend(tx.head + k));
      }
    }

    /** The second loop of sweep_unacked_packets, after count turns of the first. */
    method ResendDue(count: nat, due: set<nat>)
      requires Valid() && !closed && count + |tx.pend| <= cfg.size
      modifies this`rx, this`side
      ensures Valid() && rx == (if Resent(tx, rx.ack, due, |tx.pend|) == [] then old(rx) else AckCarried(old(rx)))
      ensures side.out == old(side.out) + Resent(tx, rx.ack, due, |tx.pend|) && side.log == old(side.log)
    {
      var p := 0;
      while count + p < cfg.size && p < |tx.pend|
        invariant Valid() && ResentSoFar(old(side.out), old(rx), side.out, rx, tx, due, p) && side.log == old(side.log)
        decreases |tx.pend| - p
      {
        ghost var out, r := side.out, rx;
        ResendIfDue(p, due);
        ResentNext(old(side.out), old(rx), out, r, side.out, rx, tx, due, p);
        p := p + 1;
      }
    }

    /** sweep_unacked_packets; due are the datagrams whose timer has run out. All of these that are in
        the ring and were not reported as received are sent again, once, and nothing else is sent. */
    method SweepUnacked(due: set<nat>)
      requires Valid() && !closed
      modifies this`tx, this`rx, this`sq, this`side
      ensures Valid() && tx == Swept(old(tx)).(swept := true) && sq.queue == old(sq.queue) && sq.heap == old(sq.heap)
      ensures rx == (if Resent(Swept(old(tx)), rx.ack, due, |tx.pend|) == [] then old(rx) else AckCarried(old(rx)))
      ensures side.out == old(side.out) + Resent(Swept(old(tx)), rx.ack, due, |tx.pend|) && side.log == old(side.log)
    {
      WindowHolds(side, peer);
      var count := SweepHead();
      ResendDue(count, due);
      ResentSame(Swept(old(tx)), tx, rx.ack, due, |tx.pend|);
    }

    /** find_first_rdma_read: the position of the oldest READ in the active list. */
    method FindFirstRead() returns (k: nat)
      requires InTable(sq)
      ensures k == FirstRead(sq.wrs, sq.active)
    {
      k := 0;
      while k < |sq.active| && !sq.wrs[sq.active[k]].op.OpRead?
        invariant k <= |sq.active|
        invariant forall i :: 0 <= i < k ==> !sq.wrs[sq.active[i]].op.OpRead?
      {
        k := k + 1;
      }
    }

    /** The read-completion loop of progress_qp. Every popped number finds a READ that was sent, so the
        warning of the source never fires; afterwards no number in the heap is below the cumulative
        acknowledgement. The number of READs that completed is that of the numbers popped, less those
        popped in vain: when the oldest sent READ was complete already. */
    method CompleteReads() returns (ghost vain: nat)
      requires Valid() && !closed
      modifies this`sq, this`side
      ensures Valid() && (forall p :: p in sq.heap ==> rx.ack <= p) && |sq.wqs| == |sq.wrs| && |old(sq.wqs)| == |old(sq.wrs)|
      ensures sq.queue == old(sq.queue) && Silent(old(side), side)
      ensures forall p :: sq.heap[p] == if p < rx.ack then 0 else old(sq.heap)[p]
      ensures |side.popped| == |old(side.popped)| + |old(sq.heap)| - |sq.heap|
      ensures Marked(sq) + vain == old(Marked(sq)) + |side.popped| - |old(side.popped)|
      ensures sq.heap != old(sq.heap) && !old(OldestIsDone(sq)) ==> Marked(sq) > old(Marked(sq))
    {
      Facts(side, peer);
      vain := 0;
      while sq.heap != multiset{}
        invariant Valid() && |sq.heap| <= |old(sq.heap)| && sq.queue == old(sq.queue) && Silent(old(side), side)
        invariant forall p :: rx.ack <= p ==> sq.heap[p] == old(sq.heap)[p]
        invariant |side.popped| == |old(side.popped)| + |old(sq.heap)| - |sq.heap|
        invariant Marked(sq) + vain == old(Marked(sq)) + |side.popped| - |old(side.popped)|
        invariant if |sq.heap| == |old(sq.heap)| then sq == old(sq)
                  else old(OldestIsDone(sq)) || Marked(sq) > old(Marked(sq))
        decreases |sq.heap|
      {
        var psn := MinOf(sq.heap);
        if psn >= rx.ack {
          break;
        }
        vain := vain + if OldestIsDone(sq) then 1 else 0;
        CompleteOldestRead(psn);
      }
    }

    /** The first READ of the active list is marked COMPLETE, and the number leaves the heap. */
    method MarkOldestRead(psn: nat)
      requires Valid() && !closed && sq.heap != multiset{} && psn == MinOf(sq.heap) && psn < rx.ack
      modifies this`sq
      ensures InTable(old(sq)) && sq == CompleteRead(old(sq), psn)
    {
      Facts(side, peer);
      PopFindsSentRead(side, peer);
      var k := FindFirstRead();
      assert k < |sq.active|;
      var w := sq.active[k];
      sq := sq.(wqs := sq.wqs[w := sq.wqs[w].(state := Complete)]);
      TryCompleteWqe(w);
      sq := sq.(heap := sq.heap - multiset{psn});
    }

    method CompleteOldestRead(psn: nat)
      requires Valid() && !closed && sq.heap != multiset{} && psn == MinOf(sq.heap) && psn < rx.ack
      modifies this`sq, this`side
      ensures Valid() && |sq.heap| == |old(sq.heap)| - 1 && |side.popped| == |old(side.popped)| + 1
      ensures Marked(sq) == old(Marked(sq)) + if old(OldestIsDone(sq)) then 0 else 1
      ensures sq.queue == old(sq.queue) && sq.heap == old(sq.heap) - multiset{psn} && Silent(old(side), side)
    {
      Facts(side, peer);
      PopFindsSentRead(side, peer);
      PopMarksIff(sq, psn);
      MarkOldestRead(psn);
      Step(PopRead);
    }

    /** dequeue_recv_wqes. */
    method DequeueRecvWqes()
      modifies this`rq
      ensures rq == Dequeue(old(rq))
    {
      while rq.ring != []
        invariant Dequeue(rq) == Dequeue(old(rq))
        decreases |rq.ring|
      {
        DequeueOne(rq);
        rq := rq.(ring := rq.ring[1..], active := rq.active + [rq.ring[0].(msn := rq.nextMsn)], nextMsn := rq.nextMsn + 1);
      }
      assert Dequeue(rq) == rq;
    }

    /** usiw_recv_wqe_queue_lookup: the active receive with the given MSN. */
    method LookupRecv(msn: nat) returns (k: nat)
      ensures k == Lookup(rq.active, msn)
    {
      k := 0;
      while k < |rq.active| && rq.active[k].msn != msn
        invariant k <= |rq.active| && forall i :: 0 <= i < k ==> rq.active[i].msn != msn
      {
        k := k + 1;
      }
    }

    /** The completion loop of process_send. */
    method PostCompletions()
      modifies this`rq
      ensures rq == PostComplete(old(rq))
    {
      while rq.active != [] && rq.active[0].complete
        invariant PostComplete(rq) == PostComplete(old(rq))
        decreases |rq.active|
      {
        rq := rq.(active := rq.active[1..], cqes := rq.cqes + [RecvCqe(rq.active[0], true)]);
      }
    }

    /** process_send. */
    method ProcessSendSegment(msn: nat, mo: nat, last: bool, data: seq<byte>, inOrder: bool)
      modifies this`rq
      ensures rq == ProcessSend(old(rq), msn, mo, last, data, inOrder)
    {
      if rq.active == [] {
        DequeueRecvWqes();
      }
      var k := LookupRecv(msn);
      if k == |rq.active| {
        return;
      }
      var r := rq.active[k];
      if mo + |data| > |Flat(r.bufs)| {
        return;
      }
      if last {
        if r.inputSize != 0 {
          return;
        }
        r := r.(inputSize := mo + |data|);
      }
      r := r.(bufs := Scatter(r.bufs, data, mo), recvSize := r.recvSize + |data|);
      if r.recvSize == r.inputSize {
        r := r.(complete := true);
      }
      rq := rq.(active := rq.active[k := r]);
      if inOrder {
        PostCompletions();
      }
    }

    /** process_rdma_read_request. */
    method ProcessReadRequest(msn: nat, r: ReadInfo)
      requires |rr.slots| > 0
      modifies this`rr
      ensures rr == StoreRead(old(rr), msn, r).0 && rr.headMsn == old(rr.headMsn) && |rr.slots| == |old(rr.slots)|
      ensures var known, k := old(rr.expected) <= msn < rr.headMsn + |rr.slots|, msn % |rr.slots|;
              && rr.expected == old(rr.expected) + (if known && msn == old(rr.expected) then 1 else 0)
              && rr.slots == if known && !old(rr.slots)[k].active
                             then old(rr.slots)[k := Slot(true, r.sinkStag, r.sinkTo, r.size, r.srcTo)] else old(rr.slots)
    {
      if msn < rr.expected || msn >= rr.headMsn + |rr.slots| {
        return;
      }
      if msn == rr.expected {
        rr := rr.(expected := rr.expected + 1);
      }
      var k := msn % |rr.slots|;
      if rr.slots[k].active {
        return;
      }
      rr := rr.(slots := rr.slots[k := Slot(true, r.sinkStag, r.sinkTo, r.size, r.srcTo)]);
    }

    /** process_rdma_read_response, after the data was placed: the last segment's number goes to the
        heap if some READ into that buffer is active. */
    method ProcessReadResponse(psn: nat, stag: nat, last: bool)
      requires InTable(sq)
      modifies this`sq
      ensures sq == old(sq).(heap := sq.heap)
      ensures sq.heap == if last && exists w :: w in sq.active && sq.wrs[w].op.OpRead? && sq.wrs[w].op.req.sinkStag == stag
                         then old(sq).heap + multiset{psn} else old(sq).heap
      ensures sq == if last && ReadIsActive(old(sq), stag) then old(sq).(heap := old(sq).heap + multiset{psn}) else old(sq)
    {
      var k := 0;
      while k < |sq.active| && !(sq.wrs[sq.active[k]].op.OpRead? && sq.wrs[sq.active[k]].op.req.sinkStag == stag)
        invariant k <= |sq.active|
        invariant forall i :: 0 <= i < k ==> !(sq.wrs[sq.active[i]].op.OpRead? && sq.wrs[sq.active[i]].op.req.sinkStag == stag)
      {
        k := k + 1;
      }
      if k == |sq.active| {
        return;
      }
      if last {
        sq := sq.(heap := sq.heap + multiset{psn});
      }
    }

    /** process_data_packet. */
    method ProcessDataPacket(d: Datagram)
      requires Valid() && !closed && d in peer.out
      modifies this`tx, this`rx, this`sq, this`rq, this`rr, this`side
      ensures Valid() && View() == Do(old(View()), Receive(d)) && sq.queue == old(sq.queue) && Silent(old(side), side)
    {
      if d.Sack? {
        tx := TakeSack(tx, d.lo, d.hi);
      } else {
        tx := TakeAck(tx, d.ack, cfg.size);
        if d.Data? {
          var (rx', ok) := RxStep(rx, d.psn);
          if ok {
            rx := rx';
            DispatchSegment(d.psn, d.seg);
          }
        }
      }
      Step(Receive(d));
    }

    method DispatchSegment(psn: nat, seg: Segment)
      requires Wf(View())
      modifies this`sq, this`rq, this`rr
      ensures View() == Dispatch(old(View()), psn, seg)
    {
      match seg
      case SendSeg(msn, mo, last, data) => ProcessSendSegment(msn, mo, last, data, psn < rx.ack);
      case WriteSeg(_, _, _, _) =>
      case ReadReq(msn, r) => ProcessReadRequest(msn, r);
      case ReadResp(stag, _, last, _) => ProcessReadResponse(psn, stag, last);
    }

    /** One turn of it: the next datagram of the burst. */
    method ProcessNext(burst: seq<Datagram>, i: nat, ghost start: Ep)
      requires Valid() && !closed && i < |burst| && burst[i] in peer.out && Delivered(start, burst[..i], View())
      modifies this`tx, this`rx, this`sq, this`rq, this`rr, this`side
      ensures Valid() && Delivered(start, burst[..i + 1], View()) && sq.queue == old(sq.queue) && Silent(old(side), side)
    {
      ghost var e := View();
      ProcessDataPacket(burst[i]);
      DeliveredNext(start, burst, i, e, View());
    }

    /** process_receive_queue, on the burst that arrived. */
    method ProcessReceiveQueue(burst: seq<Datagram>)
      requires Valid() && !closed && forall i :: 0 <= i < |burst| ==> burst[i] in peer.out
      modifies this`tx, this`rx, this`sq, this`rq, this`rr, this`side
      ensures Valid() && Delivered(old(View()), burst, View()) && sq.queue == old(sq.queue) && Silent(old(side), side)
    {
      var i := 0;
      while i < |burst|
        invariant 0 <= i <= |burst| && Valid() && Delivered(old(View()), burst[..i], View())
        invariant sq.queue == old(sq.queue) && Silent(old(side), side)
      {
        ProcessNext(burst, i, old(View()));
        i := i + 1;
      }
      assert burst[..i] == burst;
    }

    /** One turn of the inner loop of respond_rdma_read, for the response at the head. The run frees
        the slot with the last segment; the source does so after the loop. */
    method RespondNext(mem: nat -> byte)
      requires Valid() && !closed && HasCredit(View())
      requires HeadSlot(rr).active && HeadSlot(rr).remaining > 0
      modifies this`tx, this`rx, this`rr, this`side
      ensures |rr.slots| > 0 && Behind(HeadSlot(rr).remaining == 0) && OnlySent(old(tx), tx) && rx.ack == old(rx.ack)
      ensures |rr.slots| == |old(rr).slots|
      ensures rr == old(rr).(slots := old(rr).slots[rr.headMsn % |rr.slots| := HeadSlot(rr)])
      ensures HeadSlot(rr).active && HeadSlot(rr) == SlotAfter(HeadSlot(old(rr)), ResponseLength(HeadSlot(old(rr)), cfg.mtu))
      ensures Credit(tx) == old(Credit(tx)) - 1
      ensures SentNew(old(side), side) && Copied(mem, old(side), side, peer.reqs)
    {
      var k := rr.headMsn % |rr.slots|;
      var s := rr.slots[k];
      var len := Min(cfg.mtu, s.remaining);
      var data := seq(len, i requires 0 <= i => mem(s.vaddr + i));
      SendSegment(Pending(ReadResp(s.stag, s.to, s.remaining <= cfg.mtu, data), ByRead(rr.headMsn)));
      rr := rr.(slots := rr.slots[k := s.(to := s.to + len, remaining := s.remaining - len, vaddr := s.vaddr + len)]);
      NewStep(side, peer, Respond(data));
      CopyStep(side, peer, data, mem);
      Step(Respond(data));
    }

    /** The pair is in the state of the run, except that the run has freed the slot at the head. */
    ghost predicate Behind(lags: bool)
      requires |rr.slots| > 0
      reads this
    {
      Occurs(side, peer) && side.ep == if lags then View().(rr := Freed(rr)) else View()
    }

    /** The inner loop of respond_rdma_read for the response at the head. */
    method RespondSegments(mem: nat -> byte) returns (count: nat)
      requires Valid() && !closed && tx.swept && HeadSlot(rr).active && HeadSlot(rr).remaining > 0
      modifies this`tx, this`rx, this`rr, this`side
      ensures |rr.slots| > 0 && Behind(HeadSlot(rr).remaining == 0) && OnlySent(old(tx), tx) && rx.ack == old(rx.ack)
      ensures |rr.slots| == |old(rr).slots|
      ensures rr == old(rr).(slots := old(rr).slots[rr.headMsn % |rr.slots| := HeadSlot(rr)])
      ensures HeadSlot(rr).active && (HeadSlot(rr), Credit(tx)) == Drain(HeadSlot(old(rr)), cfg.mtu, old(Credit(tx)))
      ensures HeadSlot(rr).remaining == 0 || tx.limit <= Next(tx)
      ensures SentNew(old(side), side) && Copied(mem, old(side), side, peer.reqs)
    {
      count := 0;
      while HeadSlot(rr).remaining > 0 && Next(tx) < tx.limit
        invariant Draining(old(rr), old(tx), rr, tx, cfg.mtu) && Behind(HeadSlot(rr).remaining == 0) && rx.ack == old(rx.ack)
        invariant SentNew(old(side), side) && Copied(mem, old(side), side, peer.reqs)
        decreases HeadSlot(rr).remaining
      {
        Facts(side, peer);
        ghost var q0, tx0, s := rr, tx, side;
        RespondNext(mem);
        CopiedThen(mem, old(side), s, side, peer.reqs);
        DrainsOn(old(rr), old(tx), q0, tx0, rr, tx, cfg.mtu);
        count := count + 1;
      }
    }

    /** One turn of the outer loop of respond_rdma_read. In a run it gets beyond the head only without
        credit, and no slot in use is without bytes there, so that it does nothing. */
    method RespondSlot(msn: nat, mem: nat -> byte) returns (count: nat)
      requires Valid() && !closed && tx.swept && rr.headMsn <= msn < rr.headMsn + |rr.slots|
      requires SlotOf(rr, msn).active && (msn == rr.headMsn || tx.limit <= Next(tx))
      modifies this`tx, this`rx, this`rr, this`side
      ensures Valid() && OnlySent(old(tx), tx) && rx.ack == old(rx.ack) && |rr.slots| == |old(rr).slots|
      ensures (rr, Credit(tx)) == Turn(old(rr), msn, cfg.mtu, old(Credit(tx)))
      ensures old(rr.headMsn) <= rr.headMsn <= msn + 1 && (rr.headMsn <= msn ==> tx.limit <= Next(tx))
      ensures msn != old(rr.headMsn) ==> rr == old(rr)
      ensures SentNew(old(side), side) && Copied(mem, old(side), side, peer.reqs)
    {
      OccursTurned(side, peer);
      SlotHasBytes(peer, side, msn);
      count := 0;
      if Next(tx) < tx.limit {
        count := RespondSegments(mem);
      }
      var k := msn % |rr.slots|;
      TurnIs(old(rr), rr.slots[k], msn, cfg.mtu, old(Credit(tx)), Credit(tx));
      assert rr.slots == old(rr).slots[k := rr.slots[k]];
      if rr.slots[k].remaining == 0 {
        rr := rr.(slots := rr.slots[k := rr.slots[k].(active := false)], headMsn := rr.headMsn + 1);
      }
      Facts(side, peer);
    }

    /** respond_rdma_read: responses go out until there is none left or the credit is used up. */
    method RespondRdmaRead(mem: nat -> byte) returns (count: nat)
      requires Valid() && !closed && tx.swept
      modifies this`tx, this`rx, this`rr, this`side
      ensures Valid() && OnlySent(old(tx), tx) && rx.ack == old(rx.ack)
      ensures (rr, Credit(tx)) == RespondPass(old(rr), cfg.mtu, old(Credit(tx)))
      ensures tx.limit <= Next(tx) || !HeadSlot(rr).active
      ensures SentNew(old(side), side) && Copied(mem, old(side), side, peer.reqs)
    {
      count := 0;
      var n := |rr.slots|;
      var start := rr.headMsn;
      var msn := start;
      SameSlot(start, n);
      while msn != start + n
        invariant Valid() && OnlySent(old(tx), tx) && rx.ack == old(rx.ack) && |rr.slots| == n
        invariant start <= rr.headMsn <= msn <= start + n && (rr.headMsn < msn ==> tx.limit <= Next(tx))
        invariant start < rr.headMsn == msn ==> !rr.slots[start % n].active
        invariant Pass(rr, msn, start + n, cfg.mtu, Credit(tx)) == RespondPass(old(rr), cfg.mtu, old(Credit(tx)))
        invariant SentNew(old(side), side) && Copied(mem, old(side), side, peer.reqs)
        decreases start + n - msn
      {
        if !rr.slots[msn % n].active {
          break;
        }
        TurnFrees(rr, msn, cfg.mtu, Credit(tx), start % n);
        ghost var s := side;
        var c := RespondSlot(msn, mem);
        CopiedThen(mem, old(side), s, side, peer.reqs);
        count := count + c;
        msn := msn + 1;
      }
    }

    /** One turn of the loop over the active list. No active request is in the initial state. */
    method VisitActive(order: seq<nat>, i: nat, ghost gone: nat) returns (transfers: bool, ghost gone': nat)
      requires Valid() && !closed && tx.swept && gone <= i < |order| && sq.active == order[gone..]
      requires Visited(sq, tx, cfg.ordMax, order, gone, i)
      modifies this`tx, this`rx, this`sq, this`side
      ensures Valid() && tx == old(tx).(pend := tx.pend) && sq.queue == old(sq.queue)
      ensures sq.heap == old(sq.heap) && rx.ack == old(rx.ack)
      ensures gone <= gone' <= i + 1 && sq.active == order[gone'..] && Visited(sq, tx, cfg.ordMax, order, gone', i + 1)
      ensures Settled(sq, order, gone', i + 1) <==> Settled(old(sq), order, gone, i) && !transfers
      ensures SentNew(old(side), side) && BySends(old(side), side)
    {
      Facts(side, peer);
      var w := order[i];
      assert sq.active[i - gone] == w;
      ActiveRange(sq, w);
      assert sq.wqs[w].state != Init;
      ghost var was, tx0 := sq, tx;
      ProgressSendWqe(w);
      gone' := if sq.active == was.active then gone else gone + 1;
      OneMore(was, sq, order, gone, gone', i);
      OneMoreVisited(was, sq, tx0, tx, cfg.ordMax, order, gone, gone', i);
      transfers := sq.wqs[w].state == Transfer;
    }

    /** The loop of progress_qp over the active list, as it was at the start: each WQE is progressed,
        and the ones still transferring are counted. */
    method ProgressActive() returns (scount: nat)
      requires Valid() && !closed && tx.swept
      modifies this`tx, this`rx, this`sq, this`side
      ensures Valid() && tx == old(tx).(pend := tx.pend) && sq.queue == old(sq.queue)
      ensures sq.heap == old(sq.heap) && rx.ack == old(rx.ack)
      ensures (scount > 0 <==> SomeTransfer(sq)) && SentNew(old(side), side) && BySends(old(side), side)
      ensures NoneLeft(sq, tx, cfg.ordMax)
    {
      var order := sq.active;
      scount := 0;
      var i := 0;
      ghost var gone := 0;
      while i < |order|
        invariant Valid() && tx == old(tx).(pend := tx.pend) && sq.queue == old(sq.queue)
        invariant sq.heap == old(sq.heap) && rx.ack == old(rx.ack)
        invariant 0 <= gone <= i <= |order| && sq.active == order[gone..]
        invariant (scount == 0 <==> Settled(sq, order, gone, i)) && Visited(sq, tx, cfg.ordMax, order, gone, i)
        invariant SentNew(old(side), side) && BySends(old(side), side)
      {
        var transfers;
        ghost var s := side;
        transfers, gone := VisitActive(order, i, gone);
        NewThen(old(side), s, side);
        if transfers {
          scount := scount + 1;
        }
        i := i + 1;
      }
    }

    /** The next posted WQE is taken up; it is in its initial state. */
    method TakeUp() returns (w: nat)
      requires Valid() && !closed && CanActivate(sq)
      modifies this`sq, this`side
      ensures Valid() && sq.queue == old(sq.queue)[1..] && sq.heap == old(sq.heap) && sq.wrs == old(sq.wrs)
      ensures sq.active == old(sq.active) + [w] && |sq.wqs| == |old(sq.wqs)| && sq.ordActive == old(sq.ordActive)
      ensures forall v :: 0 <= v < |sq.wqs| && v != w ==> sq.wqs[v] == old(sq.wqs[v])
      ensures Silent(old(side), side)
    {
      Facts(side, peer);
      w := sq.queue[0];
      assert sq.wqs[w].state == Init;
      sq := sq.(queue := sq.queue[1..], wqs := sq.wqs[w := sq.wqs[w].(state := Transfer, msn := 0)]);
      match sq.wrs[w].op {
        case OpSend =>
          sq := sq.(wqs := sq.wqs[w := sq.wqs[w].(msn := sq.sendMsn)], sendMsn := sq.sendMsn + 1);
        case OpRead(_) =>
          sq := sq.(wqs := sq.wqs[w := sq.wqs[w].(msn := sq.readMsn)], readMsn := sq.readMsn + 1);
        case OpWrite(_, _) =>
      }
      sq := sq.(active := sq.active + [w]);
      Step(ActivateWqe);
    }

    /** ... and progressed. */
    method ActivateNext()
      requires Valid() && !closed && tx.swept && CanActivate(sq) && NoneLeft(sq, tx, cfg.ordMax)
      modifies this`tx, this`rx, this`sq, this`side
      ensures Valid() && tx == old(tx).(pend := tx.pend) && sq.queue == old(sq.queue)[1..]
      ensures sq.heap == old(sq.heap) && rx.ack == old(rx.ack) && NoneLeft(sq, tx, cfg.ordMax)
      ensures SentNew(old(side), side) && BySends(old(side), side)
    {
      var w := TakeUp();
      Facts(side, peer);
      ghost var q, tx0 := sq, tx;
      assert sq.active[|sq.active| - 1] == w;
      ProgressSendWqe(w);
      StillNoneLeft(old(sq), q, sq, tx0, tx, cfg.ordMax, w);
    }

    /** The sends of progress_qp: a new WQE is taken up if no active one is still transferring. */
    method ProgressSends()
      requires Valid() && !closed && tx.swept
      modifies this`tx, this`rx, this`sq, this`side
      ensures Valid() && tx == old(tx).(pend := tx.pend) && sq.heap == old(sq.heap) && rx.ack == old(rx.ack)
      ensures NoneLeft(sq, tx, cfg.ordMax) && TookUp(old(sq), sq)
      ensures SentNew(old(side), side) && BySends(old(side), side)
    {
      var scount := ProgressActive();
      if scount == 0 && sq.queue != [] {
        ghost var s := side;
        ActivateNext();
        NewThen(old(side), s, side);
      }
    }

    /** The end of progress_qp: a pending acknowledgement goes out, as a SACK if something is missing. */
    method SendAcks()
      requires Valid() && !closed
      modifies this`rx, this`side
      ensures Valid() && !rx.update && rx == old(rx).(update := false)
      ensures side.out == old(side.out) + Acknowledgement(old(rx), Next(tx)) && side.log == old(side.log)
    {
      if rx.update {
        ghost var a := if rx.missing then EmitSack else EmitAck;
        rx := rx.(update := false);
        Step(a);
      }
    }

    /** The part of progress_qp that sends. */
    method ProgressSending(mem: nat -> byte)
      requires Valid() && !closed && tx.swept
      modifies this`tx, this`rx, this`sq, this`rr, this`side
      ensures Valid() && sq.heap == old(sq.heap) && rx == old(rx).(update := false) && tx == old(tx).(pend := tx.pend)
      ensures old(side.log) <= side.log && Copied(mem, old(side), side, peer.reqs)
      ensures side.out == old(side.out) + FirstSent(side.log, |old(side.log)|, rx.ack) +
                          Acknowledgement(if side.log == old(side.log) then old(rx) else AckCarried(old(rx)), Next(tx))
      ensures (tx.limit <= Next(tx) || !HeadSlot(rr).active) && NoneLeft(sq, tx, cfg.ordMax) && TookUp(old(sq), sq)
    {
      ProgressSends();
      ghost var tx0, s := tx, side;
      var count := RespondRdmaRead(mem);
      MoreSent(sq, tx0, tx, cfg.ordMax);
      CopiedThen(mem, old(side), s, side, peer.reqs);
      SendAcks();
    }

    /** progress_qp, for the datagrams that arrived, the timers that ran out and the memory the READ
        responses are read from. At most one posted request is taken up. When it returns no active
        request waits without reason: none is COMPLETE at the head, and with credit left every send and
        write has sent all it has and every READ its request, up to the ORD. No READ response with credit
        is left, no last segment of one below the acknowledgement, and no acknowledgement. A complete
        receive may be left. */
    method ProgressQp(burst: seq<Datagram>, due: set<nat>, mem: nat -> byte) returns (ghost e: Ep)
      requires Valid() && !closed && forall i :: 0 <= i < |burst| ==> burst[i] in peer.out
      modifies this
      ensures Valid() && !closed && peer == old(peer)
      ensures Delivered(old(View()), burst, e) && rq == e.rq && rx == e.rx.(update := false)
      ensures old(side.log) <= side.log
      ensures tx == Swept(e.tx).(swept := true, pend := Swept(e.tx).pend + side.log[|old(side.log)|..])
      ensures Copied(mem, old(side), side, peer.reqs)
      ensures side.out == old(side.out) + SentInCall(e, due, side.log, |old(side.log)|)
      ensures forall p :: sq.heap[p] == if p < rx.ack then 0 else e.sq.heap[p]
      ensures tx.limit <= Next(tx) || !HeadSlot(rr).active
      ensures !rx.update && (forall p :: p in sq.heap ==> rx.ack <= p)
      ensures NoneLeft(sq, tx, cfg.ordMax) && TookUp(old(sq), sq)
    {
      ProcessReceiveQueue(burst);
      e := View();
      RingIsLog(side, peer);
      SweepUnacked(due);
      ghost var out, r := side.out, rx;
      ghost var vain := CompleteReads();
      ProgressSending(mem);
      RingIsLog(side, peer);
      RingGrows(e.tx, tx, old(side.log), side.log);
      CallSends(e, due, old(side.log), side.log, old(side.out), out, side.out, r);
    }

    /** sq_flush. */
    method SqFlush()
      modifies this`sq
      ensures sq == Flush(old(sq)) && old(sq.cqes) <= sq.cqes
      ensures |sq.cqes| == |old(sq.cqes)| + |old(sq.active)| + |old(sq.queue)|
      ensures forall k :: |old(sq.cqes)| <= k < |sq.cqes| ==> !sq.cqes[k].ok
    {
      ghost var all := sq.active + sq.queue;
      while sq.queue != []
        invariant sq == old(sq).(active := sq.active, queue := sq.queue) && sq.active + sq.queue == all
        decreases |sq.queue|
      {
        sq := sq.(active := sq.active + [sq.queue[0]], queue := sq.queue[1..]);
      }
      assert sq.active == all;
      ghost var n := 0;
      while sq.active != []
        invariant n <= |all| && sq.active == all[n..]
        invariant sq == old(sq).(queue := [], active := all[n..], retired := old(sq).retired + all[..n],
                                 cqes := old(sq).cqes + AsFlushed(all[..n]))
        decreases |sq.active|
      {
        FlushOne(old(sq).retired, old(sq).cqes, all, n);
        var w := sq.active[0];
        sq := sq.(active := sq.active[1..], retired := sq.retired + [w], cqes := sq.cqes + [SendCqe(w, false)]);
        n := n + 1;
      }
      assert all[..n] == all;
    }

    /** rq_flush. */
    method RqFlush()
      modifies this`rq
      ensures rq == FlushRecv(old(rq)) && old(rq.cqes) <= rq.cqes
      ensures |rq.cqes| == |old(rq.cqes)| + |old(rq.active)| + |old(rq.ring)|
      ensures forall k :: |old(rq.cqes)| <= k < |rq.cqes| ==> !rq.cqes[k].ok
    {
      DequeueRecvWqes();
      ghost var q, n := rq, 0;
      while rq.active != []
        invariant n <= |q.active|
        invariant rq == q.(active := q.active[n..], cqes := q.cqes + AsRefused(q.active[..n]))
        decreases |rq.active|
      {
        RefuseOne(q.cqes, q.active, n);
        rq := rq.(active := rq.active[1..], cqes := rq.cqes + [RecvCqe(rq.active[0], false)]);
        n := n + 1;
      }
      assert q.active[..n] == q.active;
    }

    /** qp_shutdown: everything still queued is flushed, in order. */
    method ShutDown()
      requires Valid() && !closed
      modifies this`sq, this`rq, this`closed, this`side
      ensures Valid() && closed && sq.active == [] && sq.queue == [] && rq.active == [] && rq.ring == []
      ensures old(rq.cqes) <= rq.cqes && |rq.cqes| == |old(rq.cqes)| + |old(rq.active)| + |old(rq.ring)|
      ensures forall k :: |old(rq.cqes)| <= k < |rq.cqes| ==> !rq.cqes[k].ok
      ensures old(sq.cqes) <= sq.cqes && |sq.cqes| == |old(sq.cqes)| + |old(sq.active)| + |old(sq.queue)|
      ensures forall k :: |old(sq.cqes)| <= k < |sq.cqes| ==> !sq.cqes[k].ok
    {
      SqFlush();
      RqFlush();
      closed := true;
      Step(Shutdown);
    }
  }

  // ---- What a call sends ----

  /** The datagrams that entered the log from n on, as they went out. */
  function FirstSent(log: seq<Pending>, n: nat, ack: nat): seq<Datagram>
    requires n <= |log|
  {
    seq(|log| - n, k requires 0 <= k < |log| - n => Data(n + k, ack, log[n + k].seg))
  }

  /** Nothing was sent. */
  ghost predicate Silent(s: Side, s': Side) {
    s'.out == s.out && s'.log == s.log
  }

  /** Nothing was sent but new datagrams, each once and in order, and the first of them carried the
      acknowledgement that was pending. */
  ghost predicate SentNew(s: Side, s': Side) {
    && s.log <= s'.log && s'.out == s.out + FirstSent(s'.log, |s.log|, s.ep.rx.ack)
    && s'.ep.rx == if s'.log == s.log then s.ep.rx else AckCarried(s.ep.rx)
  }

  /** They were sent for work requests. */
  ghost predicate BySends(s: Side, s': Side) {
    forall p :: |s.log| <= p < |s'.log| ==> s'.log[p].owner.ByWqe?
  }

  /** READ responses among them carry the bytes of memory that were asked for. */
  ghost predicate Copied(mem: nat -> byte, s: Side, s': Side, reqs: seq<ReadInfo>) {
    forall p :: |s.log| <= p < |s'.log| ==> FromSource(mem, s'.log[p], reqs)
  }

  lemma FirstSentMore(log: seq<Pending>, log': seq<Pending>, n: nat, ack: nat)
    requires n <= |log| && log <= log'
    ensures FirstSent(log', n, ack) == FirstSent(log, n, ack) + FirstSent(log', |log|, ack)
  {
  }

  lemma NewThen(s: Side, s1: Side, s2: Side)
    requires SentNew(s, s1) && SentNew(s1, s2)
    ensures SentNew(s, s2) && (BySends(s, s1) && BySends(s1, s2) ==> BySends(s, s2))
  {
    FirstSentMore(s1.log, s2.log, |s.log|, s.ep.rx.ack);
    assert s2.out == s.out + FirstSent(s2.log, |s.log|, s.ep.rx.ack);
  }

  lemma CopiedThen(mem: nat -> byte, s: Side, s1: Side, s2: Side, reqs: seq<ReadInfo>)
    requires SentNew(s, s1) && SentNew(s1, s2) && (Copied(mem, s, s1, reqs) || BySends(s, s1)) && Copied(mem, s1, s2, reqs)
    ensures SentNew(s, s2) && Copied(mem, s, s2, reqs)
  {
    NewThen(s, s1, s2);
    forall p | |s.log| <= p < |s2.log| ensures FromSource(mem, s2.log[p], reqs) {
      if p < |s1.log| { assert s2.log[p] == s1.log[p]; }
    }
  }

  lemma NewStep(x: Side, y: Side, a: Action)
    requires Occurs(x, y) && CanStep(x, y, a) && (a.SendNext? || a.RequestRead? || a.Respond?)
    ensures SentNew(x, Advance(x, a)) && (!a.Respond? ==> BySends(x, Advance(x, a)))
  {
    OccursWired(x, y);
    var x', d := Advance(x, a), NewPending(x.ep, a)[0];
    assert x'.log == x.log + [d];
    assert FirstSent(x'.log, |x.log|, x.ep.rx.ack) == [Data(|x.log|, x.ep.rx.ack, d.seg)];
  }

  lemma CopyStep(x: Side, y: Side, data: seq<byte>, mem: nat -> byte)
    requires Occurs(x, y) && CanStep(x, y, Respond(data))
    requires forall k :: 0 <= k < |data| ==> data[k] == mem(HeadSlot(x.ep.rr).vaddr + k)
    ensures Copied(mem, x, Advance(x, Respond(data)), y.reqs)
  {
    var x' := Advance(x, Respond(data));
    assert x'.log == x.log + NewPending(x.ep, Respond(data));
    assert CopiesFrom(mem, x, x');
    OccursTurned(x, y);
    NewResponse(y, x, Respond(data), mem, x');
  }

  /** The acknowledgement that goes out at the end, if one is pending. */
  function Acknowledgement(r: Rx, next: nat): seq<Datagram> {
    if !r.update then [] else if r.missing then [Sack(r.lo, r.hi)] else [Ack(next, r.ack)]
  }

  /** What a call of progress_qp sends, from the state e after the burst: the datagrams of the swept
      ring that are due, the new ones, and the acknowledgement, unless one of them carried it. */
  function SentInCall(e: Ep, due: set<nat>, log: seq<Pending>, n: nat): seq<Datagram>
    requires n <= |log|
  {
    var tx := Swept(e.tx);
    var again := Resent(tx, e.rx.ack, due, |tx.pend|);
    var first := FirstSent(log, n, e.rx.ack);
    again + first + Acknowledgement(if again + first == [] then e.rx else AckCarried(e.rx), |log|)
  }

  lemma CallSends(e: Ep, due: set<nat>, log: seq<Pending>, log': seq<Pending>, out: seq<Datagram>, out1: seq<Datagram>,
                  out': seq<Datagram>, r: Rx)
    requires log <= log' && out1 == out + Resent(Swept(e.tx), e.rx.ack, due, |Swept(e.tx).pend|)
    requires r == if Resent(Swept(e.tx), e.rx.ack, due, |Swept(e.tx).pend|) == [] then e.rx else AckCarried(e.rx)
    requires out' == out1 + FirstSent(log', |log|, e.rx.ack) + Acknowledgement(if log' == log then r else AckCarried(r), |log'|)
    ensures out' == out + SentInCall(e, due, log', |log|)
  {
    assert log' == log <==> FirstSent(log', |log|, e.rx.ack) == [];
  }

  /** The ring is the end of the log. */
  lemma RingIsLog(x: Side, y: Side)
    requires Occurs(x, y)
    ensures Next(x.ep.tx) == |x.log| && x.ep.tx.pend == x.log[x.ep.tx.head..]
  {
    OccursWired(x, y);
  }

  lemma RingGrows(tx: Tx, tx': Tx, log: seq<Pending>, log': seq<Pending>)
    requires Next(tx) == |log| && tx.pend == log[tx.head..] && log <= log'
    requires tx'.head == Swept(tx).head && Next(tx') == |log'| && tx'.pend == log'[tx'.head..]
    ensures tx'.pend == Swept(tx).pend + log'[|log|..]
  {
    SweptIs(tx);
  }

  lemma ResentSame(tx: Tx, tx': Tx, ack: nat, due: set<nat>, n: nat)
    requires n <= |tx.pend| && tx' == tx.(swept := tx'.swept)
    ensures Resent(tx', ack, due, n) == Resent(tx, ack, due, n)
  {
    if n > 0 { ResentSame(tx, tx', ack, due, n - 1); }
  }

  /** The datagram at k is to be sent again. */
  predicate IsDue(tx: Tx, due: set<nat>, k: nat) {
    tx.head + k in due && tx.head + k !in tx.quiet
  }

  /** What a turn of the second loop sends. */
  function ResentAt(tx: Tx, ack: nat, due: set<nat>, k: nat): seq<Datagram>
    requires k < |tx.pend|
  {
    if IsDue(tx, due, k) then [Data(tx.head + k, ack, tx.pend[k].seg)] else []
  }

  /** What is sent again of the first n datagrams of the ring. */
  function Resent(tx: Tx, ack: nat, due: set<nat>, n: nat): seq<Datagram>
    requires n <= |tx.pend|
  {
    if n == 0 then [] else Resent(tx, ack, due, n - 1) + ResentAt(tx, ack, due, n - 1)
  }

  /** The second loop after n turns: what it sent, and the acknowledgement that the first of them took. */
  ghost predicate ResentSoFar(out: seq<Datagram>, r: Rx, out': seq<Datagram>, r': Rx, tx: Tx, due: set<nat>, n: nat) {
    && n <= |tx.pend| && out' == out + Resent(tx, r.ack, due, n)
    && r' == if Resent(tx, r.ack, due, n) == [] then r else AckCarried(r)
  }

  lemma ResentNext(out: seq<Datagram>, r: Rx, out1: seq<Datagram>, r1: Rx, out': seq<Datagram>, r': Rx,
                   tx: Tx, due: set<nat>, n: nat)
    requires ResentSoFar(out, r, out1, r1, tx, due, n) && n < |tx.pend|
    requires out' == out1 + ResentAt(tx, r1.ack, due, n) && r' == if IsDue(tx, due, n) then AckCarried(r1) else r1
    ensures ResentSoFar(out, r, out', r', tx, due, n + 1)
  {
  }

  /** That is exactly what is due, each once and in order. */
  lemma {:induction false} ResentIs(tx: Tx, ack: nat, due: set<nat>, n: nat)
    requires n <= |tx.pend|
    ensures var r := Resent(tx, ack, due, n);
            && (forall d :: d in r ==> d.Data? && tx.head <= d.psn < tx.head + n)
            && (forall k :: 0 <= k < n ==>
                  (Data(tx.head + k, ack, tx.pend[k].seg) in r <==> tx.head + k in due && tx.head + k !in tx.quiet))
            && (forall i, j :: 0 <= i < j < |r| ==> r[i].psn < r[j].psn)
  {
    if n > 0 { ResentIs(tx, ack, due, n - 1); }
  }

  function AsRefused(rs: seq<Rwqe>): seq<RecvCqe> {
    seq(|rs|, k requires 0 <= k < |rs| => RecvCqe(rs[k], false))
  }

  lemma FlushOne(retired: seq<nat>, cqes: seq<SendCqe>, all: seq<nat>, n: nat)
    requires n < |all|
    ensures all[n..][1..] == all[n + 1..] && all[n..][0] == all[n]
    ensures retired + all[..n] + [all[n]] == retired + all[..n + 1]
    ensures cqes + AsFlushed(all[..n]) + [SendCqe(all[n], false)] == cqes + AsFlushed(all[..n + 1])
  {
  }

  lemma RefuseOne(cqes: seq<RecvCqe>, all: seq<Rwqe>, n: nat)
    requires n < |all|
    ensures all[n..][1..] == all[n + 1..] && all[n..][0] == all[n]
    ensures cqes + AsRefused(all[..n]) + [RecvCqe(all[n], false)] == cqes + AsRefused(all[..n + 1])
  {
  }

  lemma MoreSent(q: SendQ, tx: Tx, tx': Tx, ord: nat)
    requires NoneLeft(q, tx, ord) && tx'.limit == tx.limit && Next(tx) <= Next(tx')
    ensures NoneLeft(q, tx', ord)
  {
    forall k | 0 <= k < |q.active| ensures Through(q, tx', ord, q.active[k]) {
      assert Through(q, tx, ord, q.active[k]);
    }
  }

  /** The request just taken up joins the end of the active list. */
  lemma StillNoneLeft(q0: SendQ, q: SendQ, q': SendQ, tx: Tx, tx': Tx, ord: nat, w: nat)
    requires NoneLeft(q0, tx, ord) && q.ordActive == q0.ordActive
    requires q'.active == q.active ==> q.ordActive <= q'.ordActive
    requires Ordered(q) && q.active == q0.active + [w] && q.wrs == q0.wrs && |q.wqs| == |q0.wqs|
    requires forall v :: 0 <= v < |q0.wqs| && v != w ==> q.wqs[v] == q0.wqs[v]
    requires tx'.limit == tx.limit && Next(tx) <= Next(tx') && q'.wrs == q.wrs && |q'.wqs| == |q.wqs|
    requires forall v :: 0 <= v < |q.wqs| && v != w ==> q'.wqs[v] == q.wqs[v]
    requires q'.active == q.active || (q.active[0] == w && q'.active == q.active[1..])
    requires Through(q', tx', ord, w) && (q'.active == q.active && q'.active[0] == w ==> q'.wqs[w].state != Complete)
    ensures NoneLeft(q', tx', ord)
  {
    assert q.active[|q0.active|] == w;
    forall k | 0 <= k < |q0.active| ensures q.active[k] == q0.active[k] != w { }
    forall k | 0 <= k < |q'.active| ensures Through(q', tx', ord, q'.active[k]) {
      if q'.active == q.active && k < |q0.active| { assert Through(q0, tx, ord, q0.active[k]); }
    }
  }

  ghost predicate SomeTransfer(q: SendQ) {
    exists k :: 0 <= k < |q.active| && q.active[k] < |q.wqs| && q.wqs[q.active[k]].state == Transfer
  }

  /** At most one posted request was taken up, the first; and none only if there was none or an
      active one is still transferring. */
  ghost predicate TookUp(q: SendQ, q': SendQ) {
    || (q'.queue == q.queue && (q.queue == [] || SomeTransfer(q')))
    || (q.queue != [] && q'.queue == q.queue[1..])
  }

  /** The active WQEs among those visited are not transferring. */
  ghost predicate Settled(q: SendQ, order: seq<nat>, gone: nat, i: nat) {
    forall k :: gone <= k < i <= |order| ==> order[k] < |q.wqs| && q.wqs[order[k]].state != Transfer
  }

  /** The visited ones are through, and if the first active one was visited it is not COMPLETE. */
  ghost predicate Visited(q: SendQ, tx: Tx, ord: nat, order: seq<nat>, gone: nat, i: nat) {
    && |q.wqs| == |q.wrs| && (forall k :: gone <= k < i <= |order| ==> Through(q, tx, ord, order[k]))
    && (gone < i <= |order| ==> order[gone] < |q.wqs| && q.wqs[order[gone]].state != Complete)
  }

  lemma OneMoreVisited(q: SendQ, q': SendQ, tx: Tx, tx': Tx, ord: nat, order: seq<nat>, gone: nat, gone': nat, i: nat)
    requires gone <= i < |order| && q.active == order[gone..] && Ordered(q) && Visited(q, tx, ord, order, gone, i)
    requires q'.active == q.active ==> q.ordActive <= q'.ordActive
    requires tx'.limit == tx.limit && Next(tx) <= Next(tx') && q'.wrs == q.wrs && |q'.wqs| == |q.wqs|
    requires forall v :: 0 <= v < |q.wqs| && v != order[i] ==> q'.wqs[v] == q.wqs[v]
    requires q'.active == q.active || (q.active[0] == order[i] && q'.active == q.active[1..])
    requires gone' == (if q'.active == q.active then gone else gone + 1) && Through(q', tx', ord, order[i])
    requires q'.active == q.active && q'.active[0] == order[i] ==> q'.wqs[order[i]].state != Complete
    ensures Visited(q', tx', ord, order, gone', i + 1)
  {
    forall k | gone <= k < |order| ensures order[k] == q.active[k - gone] { }
    forall k | gone' <= k < i + 1 ensures Through(q', tx', ord, order[k]) {
      if k < i { assert Through(q, tx, ord, order[k]); }
    }
  }

  lemma OneMore(q: SendQ, q': SendQ, order: seq<nat>, gone: nat, gone': nat, i: nat)
    requires gone <= i < |order| && q.active == order[gone..] && Ordered(q)
    requires |q'.wqs| == |q.wqs| && forall v :: 0 <= v < |q.wqs| && v != order[i] ==> q'.wqs[v] == q.wqs[v]
    requires q'.active == q.active || (q.active != [] && q.active[0] == order[i] && q'.active == q.active[1..])
    requires gone' == if q'.active == q.active then gone else gone + 1
    requires q'.active != q.active ==> order[i] < |q'.wqs| && q'.wqs[order[i]].state != Transfer
    ensures gone' <= i + 1 && q'.active == order[gone'..] && order[i] < |q'.wqs|
    ensures Settled(q', order, gone', i + 1) <==> Settled(q, order, gone, i) && q'.wqs[order[i]].state != Transfer
  {
    forall k | gone <= k < |order| ensures order[k] == q.active[k - gone] && order[k] < |q.wqs| { }
    if gone' == gone {
      forall k | gone <= k < i ensures q'.wqs[order[k]] == q.wqs[order[k]] { }
    }
  }

  /** Of the transmit half only the ring changed, and only by new datagrams. */
  ghost predicate OnlySent(tx: Tx, tx': Tx) {
    tx' == tx.(pend := tx'.pend) && |tx.pend| <= |tx'.pend|
  }

  /** How many datagrams may still be sent. */
  function Credit(tx: Tx): nat {
    if Next(tx) < tx.limit then tx.limit - Next(tx) else 0
  }

  /** What a turn does, given what the inner loop left of the slot. */
  lemma TurnIs(q: ReadQ, s: Slot, msn: nat, mtu: nat, credit: nat, left: nat)
    requires |q.slots| > 0 && mtu > 0 && (s, left) == Drain(SlotOf(q, msn), mtu, credit)
    ensures Turn(q, msn, mtu, credit).1 == left
    ensures var k, q1 := msn % |q.slots|, q.(slots := q.slots[msn % |q.slots| := s]);
            Turn(q, msn, mtu, credit).0 ==
            if s.remaining == 0 then q1.(slots := q1.slots[k := s.(active := false)], headMsn := q.headMsn + 1) else q1
  {
    var k := msn % |q.slots|;
    assert q.slots[k := s][k := s.(active := false)] == q.slots[k := s.(active := false)];
  }

  /** A turn that moves the head frees its slot, and it puts no slot in use. */
  lemma TurnFrees(q: ReadQ, msn: nat, mtu: nat, credit: nat, k: nat)
    requires |q.slots| > 0 && mtu > 0 && k < |q.slots| && SlotOf(q, msn).active
    ensures var q' := Turn(q, msn, mtu, credit).0;
            && |q'.slots| == |q.slots|
            && (q'.headMsn == q.headMsn + 1 ==> !SlotOf(q', msn).active)
            && (!q.slots[k].active ==> !q'.slots[k].active)
  {
  }

  /** The inner loop has come from q to q', of which only the slot at the head is another. */
  ghost predicate Draining(q: ReadQ, tx: Tx, q': ReadQ, tx': Tx, mtu: nat)
    requires mtu > 0
  {
    && |q'.slots| == |q.slots| > 0 && OnlySent(tx, tx') && HeadSlot(q').active
    && q' == q.(slots := q.slots[q.headMsn % |q.slots| := HeadSlot(q')])
    && Drain(HeadSlot(q'), mtu, Credit(tx')) == Drain(HeadSlot(q), mtu, Credit(tx))
  }

  lemma DrainsOn(q: ReadQ, tx: Tx, q0: ReadQ, tx0: Tx, q': ReadQ, tx': Tx, mtu: nat)
    requires mtu > 0 && Draining(q, tx, q0, tx0, mtu) && Credit(tx0) > 0 && HeadSlot(q0).remaining > 0
    requires |q'.slots| == |q0.slots| && OnlySent(tx0, tx') && HeadSlot(q').active && Credit(tx') == Credit(tx0) - 1
    requires q' == q0.(slots := q0.slots[q'.headMsn % |q'.slots| := HeadSlot(q')])
    requires HeadSlot(q') == SlotAfter(HeadSlot(q0), ResponseLength(HeadSlot(q0), mtu))
    ensures Draining(q, tx, q', tx', mtu)
  {
  }

  function HeadSlot(q: ReadQ): Slot
    requires |q.slots| > 0
  {
    q.slots[q.headMsn % |q.slots|]
  }

  /** The response at the head is done. */
  function Freed(q: ReadQ): ReadQ
    requires |q.slots| > 0
  {
    q.(slots := q.slots[q.headMsn % |q.slots| := HeadSlot(q).(active := false)], headMsn := q.headMsn + 1)
  }

  /** The datagrams were processed one after the other, in order. */
  ghost predicate Delivered(e: Ep, ds: seq<Datagram>, e': Ep) {
    if ds == [] then e' == e
    else exists m: Ep :: Delivered(e, ds[..|ds| - 1], m) && Wf(m) && e' == Deliver(m, ds[|ds| - 1])
  }

  lemma DeliveredNext(e: Ep, ds: seq<Datagram>, i: nat, m: Ep, e': Ep)
    requires i < |ds| && Delivered(e, ds[..i], m) && Wf(m) && e' == Deliver(m, ds[i])
    ensures Delivered(e, ds[..i + 1], e')
  {
    var more := ds[..i + 1];
    assert more[..|more| - 1] == ds[..i] && more[|more| - 1] == ds[i];
  }

  lemma DequeueOne(q: RecvQ)
    requires q.ring != []
    ensures Dequeue(q) ==
            Dequeue(q.(ring := q.ring[1..], active := q.active + [q.ring[0].(msn := q.nextMsn)], nextMsn := q.nextMsn + 1))
  {
  }

  /** Unless the credit is used up, a send or write has sent all it has, and a READ has sent its
      request or the ORD is reached. */
  ghost predicate Through(q: SendQ, tx: Tx, ord: nat, w: nat) {
    && w < |q.wqs| == |q.wrs|
    && (tx.limit <= Next(tx) ||
        if q.wrs[w].op.OpRead? then q.wqs[w].state != Transfer || ord <= q.ordActive
        else q.wqs[w].sent == Total(q.wrs[w]))
  }

  /** No active request waits without reason: all are through, and the first is not COMPLETE. */
  ghost predicate NoneLeft(q: SendQ, tx: Tx, ord: nat) {
    && |q.wqs| == |q.wrs| && (forall k :: 0 <= k < |q.active| ==> Through(q, tx, ord, q.active[k]))
    && (q.active != [] ==> q.wqs[q.active[0]].state != Complete)
  }

  /** Only the transfer w moved on, and the datagrams it sent were added to the ring. If it was at
      the head of the active list it may have left it. */
  ghost predicate Progressed(e: Ep, e': Ep, w: nat) {
    && e'.cfg == e.cfg && e'.rq == e.rq && e'.rr == e.rr && e'.closed == e.closed
    && e'.tx == e.tx.(pend := e'.tx.pend) && e.tx.pend <= e'.tx.pend
    && e'.sq.wrs == e.sq.wrs && e'.sq.queue == e.sq.queue && |e'.sq.wqs| == |e.sq.wqs|
    && e'.sq.heap == e.sq.heap && e'.rx.ack == e.rx.ack
    && (forall v :: 0 <= v < |e.sq.wqs| && v != w ==> e'.sq.wqs[v] == e.sq.wqs[v])
    && (e'.sq.active == e.sq.active ==> e.sq.ordActive <= e'.sq.ordActive)
    && (e'.sq.active == e.sq.active || (e.sq.active != [] && e.sq.active[0] == w && e'.sq.active == e.sq.active[1..]))
  }
}
