/** Segmentation: however sends stall and resume, the segments of a message in the log are
    slices of it that tile what has been sent, and only the final one is flagged Last. */
module Segments {
  import opened Iov
  import opened Ddp
  import opened SendQueue
  import opened Endpoint
  import opened System
  import opened Accounting

  /** The payloads of the SENDs among the first n work requests, in posting order. */
  function SendsOf(wrs: seq<Wr>, n: nat): seq<seq<byte>>
    requires n <= |wrs|
  {
    if n == 0 then []
    else SendsOf(wrs, n - 1) + (if wrs[n - 1].op.OpSend? then [Flat(wrs[n - 1].iov)] else [])
  }

  /** The messages an application has posted. */
  function Messages(wrs: seq<Wr>): seq<seq<byte>> {
    SendsOf(wrs, |wrs|)
  }

  /** How many of the first n work requests are SENDs. */
  function SendCount(wrs: seq<Wr>, n: nat): (c: nat)
    requires n <= |wrs|
  {
    if n == 0 then 0 else SendCount(wrs, n - 1) + (if wrs[n - 1].op.OpSend? then 1 else 0)
  }

  lemma {:induction false} SendCountGrow(wrs: seq<Wr>, wr: Wr, n: nat)
    requires n <= |wrs|
    ensures SendCount(wrs + [wr], n) == SendCount(wrs, n)
  {
    if n > 0 { SendCountGrow(wrs, wr, n - 1); }
  }

  lemma {:induction false} SendsOfGrow(wrs: seq<Wr>, wr: Wr, n: nat)
    requires n <= |wrs|
    ensures SendsOf(wrs + [wr], n) == SendsOf(wrs, n)
  {
    if n > 0 { SendsOfGrow(wrs, wr, n - 1); }
  }

  lemma {:induction false} SendsOfPrefix(wrs: seq<Wr>, m: nat, n: nat)
    requires m <= n <= |wrs|
    ensures SendsOf(wrs, m) <= SendsOf(wrs, n)
  {
    if m < n { SendsOfPrefix(wrs, m, n - 1); }
  }

  lemma {:induction false} SendsOfLength(wrs: seq<Wr>, n: nat)
    requires n <= |wrs|
    ensures |SendsOf(wrs, n)| == SendCount(wrs, n)
  {
    if n > 0 { SendsOfLength(wrs, n - 1); }
  }

  /** The MSN of the SEND at position w names its payload among the messages. */
  lemma MessageAt(wrs: seq<Wr>, w: nat)
    requires w < |wrs| && wrs[w].op.OpSend?
    ensures SendCount(wrs, w) < |Messages(wrs)|
    ensures Messages(wrs)[SendCount(wrs, w)] == Flat(wrs[w].iov)
  {
    SendsOfLength(wrs, w);
    SendsOfPrefix(wrs, w + 1, |wrs|);
    assert SendsOf(wrs, w + 1)[|SendsOf(wrs, w)|] == Flat(wrs[w].iov);
  }

  lemma {:induction false} SendCountMonotone(wrs: seq<Wr>, v: nat, w: nat)
    requires v <= w <= |wrs|
    ensures SendCount(wrs, v) <= SendCount(wrs, w)
  {
    if v < w { SendCountMonotone(wrs, v, w - 1); }
  }

  lemma MsnIsUnique(wrs: seq<Wr>, v: nat, w: nat)
    requires v < w <= |wrs| && wrs[v].op.OpSend?
    ensures SendCount(wrs, v) < SendCount(wrs, w)
  {
  }

  /** A non-empty slice of the payload, flagged Last exactly at its end. */
  predicate PieceOk(wr: Wr, off: nat, last: bool, data: seq<byte>) {
    && |data| > 0 && off + |data| <= Total(wr)
    && data == Flat(wr.iov)[off..off + |data|]
    && (last <==> off + |data| == Total(wr))
  }

  predicate IsPiece(d: Pending) {
    d.owner.ByWqe? && (d.seg.SendSeg? || d.seg.WriteSeg?)
  }

  /** Where in the payload of its work request a segment lies. */
  function Offset(wrs: seq<Wr>, d: Pending): int
    requires IsPiece(d) && d.owner.w < |wrs|
  {
    if d.seg.SendSeg? then d.seg.mo
    else if wrs[d.owner.w].op.OpWrite? then d.seg.to - wrs[d.owner.w].op.to
    else 0
  }

  predicate SegOk(wrs: seq<Wr>, wqs: seq<Wq>, d: Pending)
    requires |wrs| == |wqs|
  {
    && (d.owner.ByRead? <==> d.seg.ReadResp?)
    && (d.owner.ByWqe? ==>
          var w := d.owner.w;
          && w < |wrs|
          && match d.seg
             case SendSeg(msn, mo, last, data) =>
               && wrs[w].op.OpSend? && msn == SendCount(wrs, w) + 1
               && PieceOk(wrs[w], mo, last, data) && mo + |data| <= wqs[w].sent
             case WriteSeg(stag, to, last, data) =>
               && wrs[w].op.OpWrite? && stag == wrs[w].op.stag && wrs[w].op.to <= to
               && PieceOk(wrs[w], to - wrs[w].op.to, last, data) && to - wrs[w].op.to + |data| <= wqs[w].sent
             case ReadReq(_, r) => wrs[w].op == OpRead(r)
             case ReadResp(_, _, _, _) => false)
  }

  ghost predicate SegsOk(log: seq<Pending>, wrs: seq<Wr>, wqs: seq<Wq>)
    requires |wrs| == |wqs|
  {
    forall p {:trigger SegOk(wrs, wqs, log[p])} :: 0 <= p < |log| ==> SegOk(wrs, wqs, log[p])
  }

  /** Segments of one work request go out in order and do not overlap. */
  ghost predicate InOrder(log: seq<Pending>, wrs: seq<Wr>) {
    forall p, q {:trigger log[p], log[q]} :: 0 <= p < q < |log| && IsPiece(log[p]) && IsPiece(log[q])
                && log[p].owner == log[q].owner && log[p].owner.w < |wrs|
                ==> Offset(wrs, log[p]) + |log[p].seg.data| <= Offset(wrs, log[q])
  }

  predicate PieceCovers(wrs: seq<Wr>, d: Pending, w: nat, b: nat) {
    IsPiece(d) && d.owner.w == w < |wrs| && Offset(wrs, d) <= b < Offset(wrs, d) + |d.seg.data|
  }

  ghost predicate Covered(log: seq<Pending>, wrs: seq<Wr>, w: nat, b: nat) {
    exists p :: 0 <= p < |log| && PieceCovers(wrs, log[p], w, b)
  }

  /** Every byte counted as sent is in some segment. */
  ghost predicate AllCovered(log: seq<Pending>, wrs: seq<Wr>, wqs: seq<Wq>)
    requires |wrs| == |wqs|
  {
    forall w, b :: 0 <= w < |wrs| && 0 <= b < wqs[w].sent ==> Covered(log, wrs, w, b)
  }

  predicate NumberOk(q: SendQ, w: nat)
    requires w < |q.wrs| == |q.wqs|
  {
    q.wqs[w].msn == SendCount(q.wrs, w) + 1
  }

  /** MSNs are given out in posting order. */
  ghost predicate SendMsns(q: SendQ)
    requires Ordered(q)
  {
    && q.sendMsn == SendCount(q.wrs, Started(q)) + 1
    && forall w {:trigger NumberOk(q, w)} :: |q.retired| <= w < Started(q) && q.wrs[w].op.OpSend? ==> NumberOk(q, w)
  }

  ghost predicate SegInv(x: Side) {
    var q := x.ep.sq;
    && Ordered(q)
    && SegsOk(x.log, q.wrs, q.wqs) && InOrder(x.log, q.wrs) && AllCovered(x.log, q.wrs, q.wqs)
    && (!x.ep.closed ==> SendMsns(q))
  }

  // ---- Every step keeps it ----

  lemma PiecesGrow(log: seq<Pending>, wrs: seq<Wr>, wqs: seq<Wq>, wr: Wr)
    requires |wrs| == |wqs| && SegsOk(log, wrs, wqs) && InOrder(log, wrs) && AllCovered(log, wrs, wqs)
    ensures SegsOk(log, wrs + [wr], wqs + [WQ_START]) && InOrder(log, wrs + [wr])
    ensures AllCovered(log, wrs + [wr], wqs + [WQ_START])
  {
    var wrs', wqs' := wrs + [wr], wqs + [WQ_START];
    forall p | 0 <= p < |log| ensures SegOk(wrs', wqs', log[p]) {
      assert SegOk(wrs, wqs, log[p]);
      if log[p].owner.ByWqe? { SendCountGrow(wrs, wr, log[p].owner.w); }
    }
    forall w, b | 0 <= w < |wrs'| && 0 <= b < wqs'[w].sent ensures Covered(log, wrs', w, b) {
      assert Covered(log, wrs, w, b);
      var p :| 0 <= p < |log| && PieceCovers(wrs, log[p], w, b);
      assert PieceCovers(wrs', log[p], w, b);
    }
  }

  /** The log and the bytes sent stay as they are, or the log gains something that is not a
      piece of a message. */
  lemma PiecesStay(log: seq<Pending>, more: seq<Pending>, wrs: seq<Wr>, wqs: seq<Wq>, wqs': seq<Wq>)
    requires |wrs| == |wqs| == |wqs'| && SegsOk(log, wrs, wqs) && InOrder(log, wrs) && AllCovered(log, wrs, wqs)
    requires forall w :: 0 <= w < |wqs| ==> wqs'[w].sent == wqs[w].sent
    requires forall k :: 0 <= k < |more| ==> SegOk(wrs, wqs', more[k]) && !IsPiece(more[k])
    ensures SegsOk(log + more, wrs, wqs') && InOrder(log + more, wrs) && AllCovered(log + more, wrs, wqs')
  {
    var log' := log + more;
    forall p | 0 <= p < |log'| ensures SegOk(wrs, wqs', log'[p]) {
      if p < |log| { assert SegOk(wrs, wqs, log[p]); }
    }
    forall w, b | 0 <= w < |wrs| && 0 <= b < wqs'[w].sent ensures Covered(log', wrs, w, b) {
      assert Covered(log, wrs, w, b);
      var p :| 0 <= p < |log| && PieceCovers(wrs, log[p], w, b);
      assert log'[p] == log[p];
    }
  }

  /** A segment cut where the last one ended extends the tiling. */
  lemma PieceAdded(log: seq<Pending>, d: Pending, wrs: seq<Wr>, wqs: seq<Wq>, wqs': seq<Wq>)
    requires |wrs| == |wqs| == |wqs'| && SegsOk(log, wrs, wqs) && InOrder(log, wrs) && AllCovered(log, wrs, wqs)
    requires IsPiece(d) && SegOk(wrs, wqs', d) && Offset(wrs, d) == wqs[d.owner.w].sent
    requires wqs'[d.owner.w].sent == wqs[d.owner.w].sent + |d.seg.data|
    requires forall w :: 0 <= w < |wqs| && w != d.owner.w ==> wqs'[w].sent == wqs[w].sent
    ensures SegsOk(log + [d], wrs, wqs') && InOrder(log + [d], wrs) && AllCovered(log + [d], wrs, wqs')
  {
    var log' := log + [d];
    forall p | 0 <= p < |log'| ensures SegOk(wrs, wqs', log'[p]) {
      if p < |log| { assert SegOk(wrs, wqs, log[p]); }
    }
    forall p, q | 0 <= p < q < |log'| && IsPiece(log'[p]) && IsPiece(log'[q]) && log'[p].owner == log'[q].owner
      ensures Offset(wrs, log'[p]) + |log'[p].seg.data| <= Offset(wrs, log'[q])
    {
      assert SegOk(wrs, wqs, log[p]);
      if q < |log| { assert log'[p] == log[p] && log'[q] == log[q]; }
    }
    forall w, b | 0 <= w < |wrs| && 0 <= b < wqs'[w].sent ensures Covered(log', wrs, w, b) {
      if b < wqs[w].sent {
        assert Covered(log, wrs, w, b);
        var p :| 0 <= p < |log| && PieceCovers(wrs, log[p], w, b);
        assert log'[p] == log[p];
      } else {
        assert PieceCovers(wrs, log'[|log|], w, b);
      }
    }
  }

  lemma MsnsAfterPost(q: SendQ, wr: Wr)
    requires Ordered(q) && SendMsns(q) && Ordered(Post(q, wr))
    ensures SendMsns(Post(q, wr))
  {
    var q' := Post(q, wr);
    SendCountGrow(q.wrs, wr, Started(q));
    forall w | |q'.retired| <= w < Started(q') && q'.wrs[w].op.OpSend?
      ensures NumberOk(q', w)
    {
      SendCountGrow(q.wrs, wr, w);
      assert NumberOk(q, w) && q'.wqs[w] == q.wqs[w];
    }
  }

  lemma MsnsAfterActivate(q: SendQ)
    requires Ordered(q) && SendMsns(q) && q.queue != [] && InTable(q) && Ordered(Activate(q))
    ensures SendMsns(Activate(q))
  {
    var q' := Activate(q);
    var s := q.queue[0];
    assert s == Started(q) && Started(q') == s + 1;
    forall w | |q'.retired| <= w < Started(q') && q'.wrs[w].op.OpSend?
      ensures NumberOk(q', w)
    {
      if w != s { assert NumberOk(q, w) && q'.wqs[w] == q.wqs[w]; }
    }
  }

  lemma MsnsStay(q: SendQ, q': SendQ)
    requires Ordered(q) && SendMsns(q) && Ordered(q') && q'.wrs == q.wrs && q'.sendMsn == q.sendMsn
    requires |q.retired| <= |q'.retired| && Started(q') == Started(q)
    requires forall w :: 0 <= w < |q.wqs| ==> q'.wqs[w].msn == q.wqs[w].msn
    ensures SendMsns(q')
  {
    forall w | |q'.retired| <= w < Started(q') && q'.wrs[w].op.OpSend? ensures NumberOk(q', w) {
      assert NumberOk(q, w);
    }
  }

  lemma SendEffect(x: Side, w: nat)
    requires Wf(x.ep) && Enabled(x.ep, SendNext(w))
    ensures var q, x' := x.ep.sq, Advance(x, SendNext(w));
            && !q.wrs[w].op.OpRead? && q.wqs[w].sent < Total(q.wrs[w]) && !x'.ep.closed
            && x'.log == x.log + [Pending(NextSegment(q.wrs[w], q.wqs[w], x.ep.cfg.mtu), ByWqe(w))]
            && x'.ep.sq == AdvanceSent(q, w, DdpLength(NextSegment(q.wrs[w], q.wqs[w], x.ep.cfg.mtu)))
  {
  }

  /** Sending the next piece of a work request. */
  lemma PieceSent(log: seq<Pending>, q: SendQ, w: nat, mtu: nat)
    requires mtu > 0 && Ordered(q) && |q.retired| <= w < Started(q) && q.wqs[w].sent < Total(q.wrs[w])
    requires !q.wrs[w].op.OpRead? && SendMsns(q)
    requires SegsOk(log, q.wrs, q.wqs) && InOrder(log, q.wrs) && AllCovered(log, q.wrs, q.wqs)
    requires Ordered(AdvanceSent(q, w, DdpLength(NextSegment(q.wrs[w], q.wqs[w], mtu))))
    ensures var seg := NextSegment(q.wrs[w], q.wqs[w], mtu);
            var q', log' := AdvanceSent(q, w, DdpLength(seg)), log + [Pending(seg, ByWqe(w))];
            SegsOk(log', q'.wrs, q'.wqs) && InOrder(log', q'.wrs) && AllCovered(log', q'.wrs, q'.wqs) && SendMsns(q')
  {
    SegmentSize(q.wrs[w], q.wqs[w], mtu);
    var seg := NextSegment(q.wrs[w], q.wqs[w], mtu);
    var q' := AdvanceSent(q, w, DdpLength(seg));
    assert q.wrs[w].op.OpSend? ==> NumberOk(q, w);
    PieceAdded(log, Pending(seg, ByWqe(w)), q.wrs, q.wqs, q'.wqs);
    MsnsStay(q, q');
  }

  lemma SegsAfterSend(x: Side, w: nat)
    requires Wf(x.ep) && Enabled(x.ep, SendNext(w)) && SegInv(x) && QueueOk(x.ep) && QueueOk(Do(x.ep, SendNext(w)))
    ensures SegInv(Advance(x, SendNext(w)))
  {
    ActiveRange(x.ep.sq, w);
    SendEffect(x, w);
    PieceSent(x.log, x.ep.sq, w, x.ep.cfg.mtu);
  }

  lemma SegsAfterOther(x: Side, a: Action)
    requires Wf(x.ep) && Enabled(x.ep, a) && SegInv(x) && QueueOk(x.ep) && QueueOk(Do(x.ep, a))
    requires !a.PostSendWr? && !a.ActivateWqe? && !a.SendNext?
    ensures SegInv(Advance(x, a))
  {
    var q, x' := x.ep.sq, Advance(x, a);
    SendsStay(x.ep, a);
    if a.RequestRead? { ActiveRange(q, a.w); }
    PiecesStay(x.log, NewPending(x.ep, a), q.wrs, q.wqs, x'.ep.sq.wqs);
    if !a.Shutdown? { MsnsStay(q, x'.ep.sq); }
  }

  lemma SegsKeep(x: Side, a: Action)
    requires Wf(x.ep) && Enabled(x.ep, a) && SegInv(x) && QueueOk(x.ep) && QueueOk(Do(x.ep, a))
    ensures SegInv(Advance(x, a))
  {
    var q, x' := x.ep.sq, Advance(x, a);
    if a.PostSendWr? {
      PiecesGrow(x.log, q.wrs, q.wqs, a.wr);
      MsnsAfterPost(q, a.wr);
      assert x'.log == x.log;
    } else if a.ActivateWqe? {
      assert q.queue[0] == Started(q);
      PiecesStay(x.log, [], q.wrs, q.wqs, x'.ep.sq.wqs);
      MsnsAfterActivate(q);
    } else if a.SendNext? {
      SegsAfterSend(x, a.w);
    } else {
      SegsAfterOther(x, a);
    }
  }

  lemma RingIsOwned(x: Side)
    requires SegInv(x)
    requires forall k :: 0 <= k < |x.ep.tx.pend| ==> x.ep.tx.pend[k] in x.log
    ensures RingOwned(x.ep)
  {
    forall k | 0 <= k < |x.ep.tx.pend| ensures OwnedOk(x.ep.sq.wrs, x.ep.tx.pend[k]) {
      var p :| 0 <= p < |x.log| && x.log[p] == x.ep.tx.pend[k];
      assert SegOk(x.ep.sq.wrs, x.ep.sq.wqs, x.log[p]);
    }
  }
}
