/** The responder's side of RDMA READ over whole runs: a request always finds its slot free,
    and responses go out in MSN order, tiling what was asked for. */
module ReadResponder {
  import opened Modular
  import opened Ddp
  import opened TrpReceive
  import opened ReadQueue
  import opened Endpoint
  import opened System
  import opened Transport
  import opened ReadRequester

  /** The slot of a request: what is left of it. Only the response at the head has begun. */
  predicate SlotHolds(s: Slot, r: ReadInfo, begun: bool) {
    && s.stag == r.sinkStag
    && s.remaining > 0 && r.sinkTo <= s.to && s.to + s.remaining == r.sinkTo + r.size
    && s.vaddr - r.srcTo == s.to - r.sinkTo
    && (!begun ==> s.to == r.sinkTo)
  }

  /** The slots in the window are in use exactly for the requests received and not answered. */
  ghost predicate SlotsOk(q: ReadQ, recvd: map<nat, nat>, reqs: seq<ReadInfo>)
    requires |q.slots| > 0
  {
    forall m {:trigger m in recvd} :: q.headMsn <= m < q.headMsn + |q.slots| ==>
      && (SlotOf(q, m).active <==> m in recvd)
      && (m in recvd ==> 1 <= m <= |reqs| && SlotHolds(SlotOf(q, m), reqs[m - 1], m == q.headMsn))
  }

  /** Requests below the expected MSN and finished ones have been received. */
  ghost predicate RecvdOk(q: ReadQ, recvd: map<nat, nat>, reqs: seq<ReadInfo>, done: nat) {
    && q.headMsn == done + 1 && q.expected >= 1
    && (forall m :: m in recvd ==> 1 <= m <= |reqs|)
    && (forall m {:trigger m in recvd} :: 1 <= m < q.expected ==> m in recvd)
    && (forall m {:trigger m in recvd} :: 1 <= m <= done ==> m in recvd)
  }

  /** Each request received came with an accepted datagram. */
  ghost predicate RecvdFrom(recvd: map<nat, nat>, rx: Rx, log: seq<Pending>) {
    forall m :: m in recvd ==>
      && Accepted(rx, recvd[m]) && recvd[m] < |log|
      && log[recvd[m]].seg.ReadReq? && log[recvd[m]].seg.msn == m
  }

  // ---- The responses in the log ----

  ghost predicate RespOk(d: Pending, reqs: seq<ReadInfo>) {
    d.owner.ByRead? ==>
      && d.seg.ReadResp? && 1 <= d.owner.msn <= |reqs|
      && var r := reqs[d.owner.msn - 1];
      && d.seg.stag == r.sinkStag && |d.seg.data| > 0
      && r.sinkTo <= d.seg.to && d.seg.to + |d.seg.data| <= r.sinkTo + r.size
      && (d.seg.last <==> d.seg.to + |d.seg.data| == r.sinkTo + r.size)
  }

  ghost predicate RespsOk(log: seq<Pending>, reqs: seq<ReadInfo>) {
    forall p {:trigger RespOk(log[p], reqs)} :: 0 <= p < |log| ==> RespOk(log[p], reqs)
  }

  /** Responses go out in MSN order, and the segments of one response in order, without
      overlap. */
  ghost predicate RespOrder(log: seq<Pending>) {
    forall p, q {:trigger log[p], log[q]} :: 0 <= p < q < |log| ==> RespBefore(log[p], log[q])
  }

  predicate RespBefore(d: Pending, e: Pending) {
    d.owner.ByRead? && e.owner.ByRead? && d.seg.ReadResp? && e.seg.ReadResp? ==>
      || d.owner.msn < e.owner.msn
      || (d.owner.msn == e.owner.msn && d.seg.to + |d.seg.data| <= e.seg.to)
  }

  /** How far the response to m has got: to its end, to where its slot stands, or nowhere. */
  function SentUpTo(q: ReadQ, reqs: seq<ReadInfo>, recvd: map<nat, nat>, m: nat): nat
    requires |q.slots| > 0 && 1 <= m <= |reqs|
  {
    if m < q.headMsn then reqs[m - 1].sinkTo + reqs[m - 1].size
    else if m == q.headMsn && m in recvd then SlotOf(q, m).to
    else 0
  }

  /** No response segment lies beyond that point. */
  ghost predicate RespBounded(log: seq<Pending>, q: ReadQ, reqs: seq<ReadInfo>, recvd: map<nat, nat>)
    requires |q.slots| > 0
  {
    forall p :: 0 <= p < |log| && log[p].owner.ByRead? && log[p].seg.ReadResp? ==>
      && 1 <= log[p].owner.msn <= |reqs|
      && log[p].seg.to + |log[p].seg.data| <= SentUpTo(q, reqs, recvd, log[p].owner.msn)
  }

  predicate RespCovers(d: Pending, m: nat, b: nat) {
    d.owner == ByRead(m) && d.seg.ReadResp? && d.seg.to <= b < d.seg.to + |d.seg.data|
  }

  ghost predicate ByteSent(log: seq<Pending>, m: nat, b: nat) {
    exists p :: 0 <= p < |log| && RespCovers(log[p], m, b)
  }

  /** Every requested byte before that point is in some response segment. */
  ghost predicate RespCovered(log: seq<Pending>, q: ReadQ, reqs: seq<ReadInfo>, recvd: map<nat, nat>)
    requires |q.slots| > 0
  {
    forall m, b {:trigger ByteSent(log, m, b)} :: 1 <= m <= |reqs| && reqs[m - 1].sinkTo <= b < SentUpTo(q, reqs, recvd, m)
      ==> ByteSent(log, m, b)
  }

  /** last lists the numbers of the last segments, by MSN. */
  ghost predicate LastOk(log: seq<Pending>, last: seq<nat>) {
    forall k :: 0 <= k < |last| ==>
      last[k] < |log| && log[last[k]].owner == ByRead(k + 1) && log[last[k]].seg.ReadResp? && log[last[k]].seg.last
  }

  /** The slots, the requests received and the responses in the log belong together. */
  ghost predicate RespState(q: ReadQ, recvd: map<nat, nat>, reqs: seq<ReadInfo>, log: seq<Pending>, last: seq<nat>) {
    && |q.slots| > 0
    && SlotsOk(q, recvd, reqs) && RecvdOk(q, recvd, reqs, |last|)
    && RespsOk(log, reqs) && RespOrder(log)
    && RespBounded(log, q, reqs, recvd) && RespCovered(log, q, reqs, recvd)
    && LastOk(log, last)
  }

  /** x requests, y responds. */
  ghost predicate RespInv(x: Side, y: Side) {
    RespState(y.ep.rr, y.recvd, x.reqs, y.log, y.last) && RecvdFrom(y.recvd, y.ep.rx, x.log)
  }

  // ---- A request is received ----

  /** A request that is new to the responder is in the window and its slot is free. */
  lemma RequestFindsSlot(q: ReadQ, recvd: map<nat, nat>, reqs: seq<ReadInfo>, done: nat, m: nat)
    requires |q.slots| > 0 && SlotsOk(q, recvd, reqs) && RecvdOk(q, recvd, reqs, done)
    requires |reqs| <= done + |q.slots|
    requires 1 <= m <= |reqs| && m !in recvd
    ensures InWindow(q, m) && !SlotOf(q, m).active && q.headMsn <= m
  {
  }

  lemma StoreKeepsSlots(q: ReadQ, recvd: map<nat, nat>, reqs: seq<ReadInfo>, done: nat, m: nat, p: nat)
    requires |q.slots| > 0 && SlotsOk(q, recvd, reqs) && RecvdOk(q, recvd, reqs, done)
    requires |reqs| <= done + |q.slots| && (forall k :: 0 <= k < |reqs| ==> reqs[k].size > 0)
    requires 1 <= m <= |reqs| && m !in recvd
    ensures StoreRead(q, m, reqs[m - 1]).1
    ensures var q' := StoreRead(q, m, reqs[m - 1]).0;
            SlotsOk(q', recvd[m := p], reqs) && RecvdOk(q', recvd[m := p], reqs, done)
  {
    RequestFindsSlot(q, recvd, reqs, done, m);
    var q' := StoreRead(q, m, reqs[m - 1]).0;
    forall n | q'.headMsn <= n < q'.headMsn + |q'.slots|
      ensures SlotOf(q', n) == if n == m then SlotOf(q', m) else SlotOf(q, n)
    {
      if n < m { DistinctSlots(n, m, |q.slots|); }
      if m < n { DistinctSlots(m, n, |q.slots|); }
    }
  }

  lemma StoreKeepsLog(log: seq<Pending>, q: ReadQ, recvd: map<nat, nat>, reqs: seq<ReadInfo>, done: nat, m: nat, p: nat)
    requires |q.slots| > 0 && SlotsOk(q, recvd, reqs) && RecvdOk(q, recvd, reqs, done)
    requires |reqs| <= done + |q.slots| && (forall k :: 0 <= k < |reqs| ==> reqs[k].size > 0)
    requires 1 <= m <= |reqs| && m !in recvd
    requires RespsOk(log, reqs) && RespBounded(log, q, reqs, recvd) && RespCovered(log, q, reqs, recvd)
    ensures var q' := StoreRead(q, m, reqs[m - 1]).0;
            RespBounded(log, q', reqs, recvd[m := p]) && RespCovered(log, q', reqs, recvd[m := p])
  {
  }

  // ---- A response segment goes out ----

  lemma AdvanceKeepsSlots(q: ReadQ, recvd: map<nat, nat>, reqs: seq<ReadInfo>, done: nat, len: nat)
    requires |q.slots| > 0 && SlotsOk(q, recvd, reqs) && RecvdOk(q, recvd, reqs, done)
    requires |reqs| <= done + |q.slots|
    requires SlotOf(q, q.headMsn).active && 0 < len <= SlotOf(q, q.headMsn).remaining
    ensures q.headMsn in recvd && q.headMsn <= |reqs|
    ensures var q' := AdvanceHead(q, len);
            var done' := if SlotOf(q, q.headMsn).remaining == len then done + 1 else done;
            SlotsOk(q', recvd, reqs) && RecvdOk(q', recvd, reqs, done')
  {
    var q', h, n := AdvanceHead(q, len), q.headMsn, |q.slots|;
    assert h in recvd;
    forall m | q'.headMsn <= m < q'.headMsn + n && m != h
      ensures m == h + n || SlotOf(q', m) == SlotOf(q, m)
      ensures m == h + n ==> m !in recvd && !SlotOf(q', m).active
    {
      if m == h + n { SameSlot(h, n); } else { DistinctSlots(h, m, n); }
    }
  }

  /** The response at the head moves on by len; the next one, if it comes to the head, has
      sent nothing yet. */
  lemma SentAfterResponse(q: ReadQ, recvd: map<nat, nat>, reqs: seq<ReadInfo>, done: nat, len: nat, m: nat)
    requires |q.slots| > 0 && SlotsOk(q, recvd, reqs) && RecvdOk(q, recvd, reqs, done)
    requires |reqs| <= done + |q.slots|
    requires SlotOf(q, q.headMsn).active && 0 < len <= SlotOf(q, q.headMsn).remaining
    requires 1 <= m <= |reqs|
    ensures q.headMsn <= |reqs| && SentUpTo(q, reqs, recvd, q.headMsn) == SlotOf(q, q.headMsn).to
    ensures m < q.headMsn ==> SentUpTo(AdvanceHead(q, len), reqs, recvd, m) == SentUpTo(q, reqs, recvd, m)
    ensures m == q.headMsn ==> SentUpTo(AdvanceHead(q, len), reqs, recvd, m) == SlotOf(q, m).to + len
    ensures m > q.headMsn ==> SentUpTo(AdvanceHead(q, len), reqs, recvd, m) <= reqs[m - 1].sinkTo
  {
    var h, n := q.headMsn, |q.slots|;
    assert h in recvd;
    if m == h + 1 && m in recvd { DistinctSlots(h, m, n); }
  }

  lemma RespsGrow(log: seq<Pending>, d: Pending, q: ReadQ, recvd: map<nat, nat>, reqs: seq<ReadInfo>, done: nat)
    requires |q.slots| > 0 && SlotsOk(q, recvd, reqs) && RecvdOk(q, recvd, reqs, done)
    requires RespsOk(log, reqs) && RespOrder(log) && RespBounded(log, q, reqs, recvd)
    requires d.owner == ByRead(q.headMsn) && RespOk(d, reqs) && q.headMsn in recvd && d.seg.to == SlotOf(q, q.headMsn).to
    ensures RespsOk(log + [d], reqs) && RespOrder(log + [d])
  {
    var log', h := log + [d], q.headMsn;
    forall p, r | 0 <= p < r < |log'| ensures RespBefore(log'[p], log'[r]) {
      if r < |log| {
        assert RespBefore(log[p], log[r]) && log'[p] == log[p] && log'[r] == log[r];
      } else if log[p].owner.ByRead? {
        assert RespOk(log[p], reqs);
      }
    }
  }

  lemma BoundedGrow(log: seq<Pending>, d: Pending, q: ReadQ, recvd: map<nat, nat>, reqs: seq<ReadInfo>, done: nat)
    requires |q.slots| > 0 && SlotsOk(q, recvd, reqs) && RecvdOk(q, recvd, reqs, done) && |reqs| <= done + |q.slots|
    requires RespsOk(log, reqs) && RespBounded(log, q, reqs, recvd)
    requires d.owner == ByRead(q.headMsn) && RespOk(d, reqs) && d.seg.to == SlotOf(q, q.headMsn).to
    requires SlotOf(q, q.headMsn).active && |d.seg.data| <= SlotOf(q, q.headMsn).remaining
    ensures RespBounded(log + [d], AdvanceHead(q, |d.seg.data|), reqs, recvd)
  {
  }

  lemma CoveredGrow(log: seq<Pending>, d: Pending, q: ReadQ, recvd: map<nat, nat>, reqs: seq<ReadInfo>, done: nat)
    requires |q.slots| > 0 && SlotsOk(q, recvd, reqs) && RecvdOk(q, recvd, reqs, done) && |reqs| <= done + |q.slots|
    requires RespCovered(log, q, reqs, recvd)
    requires d.owner == ByRead(q.headMsn) && RespOk(d, reqs) && d.seg.to == SlotOf(q, q.headMsn).to
    requires SlotOf(q, q.headMsn).active && |d.seg.data| <= SlotOf(q, q.headMsn).remaining
    ensures RespCovered(log + [d], AdvanceHead(q, |d.seg.data|), reqs, recvd)
  {
    var log', q' := log + [d], AdvanceHead(q, |d.seg.data|);
    forall m, b | 1 <= m <= |reqs| && reqs[m - 1].sinkTo <= b < SentUpTo(q', reqs, recvd, m)
      ensures ByteSent(log', m, b)
    {
      SentAfterResponse(q, recvd, reqs, done, |d.seg.data|, m);
      if m == q.headMsn && d.seg.to <= b {
        assert RespCovers(log'[|log|], m, b);
      } else {
        assert ByteSent(log, m, b);
        var p :| 0 <= p < |log| && RespCovers(log[p], m, b);
        assert log'[p] == log[p];
      }
    }
  }

  lemma ByteStays(log: seq<Pending>, more: seq<Pending>, m: nat, b: nat)
    requires ByteSent(log, m, b)
    ensures ByteSent(log + more, m, b)
  {
    var p :| 0 <= p < |log| && RespCovers(log[p], m, b);
    assert (log + more)[p] == log[p];
  }

  // ---- Every step keeps it ----

  /** y answers: one more segment of the response at the head. */
  lemma RespondKeeps(x: Side, y: Side, a: Action)
    requires Wf(y.ep) && Enabled(y.ep, a) && a.Respond? && RespInv(x, y)
    requires |y.log| == Next(y.ep.tx) && |x.reqs| <= |y.last| + y.ep.cfg.irdMax
    ensures RespInv(x, Advance(y, a))
  {
    var q, d, y' := y.ep.rr, NewPending(y.ep, a)[0], Advance(y, a);
    AdvanceKeepsSlots(q, y.recvd, x.reqs, |y.last|, |a.data|);
    assert SlotHolds(SlotOf(q, q.headMsn), x.reqs[q.headMsn - 1], true);
    assert RespOk(d, x.reqs);
    RespsGrow(y.log, d, q, y.recvd, x.reqs, |y.last|);
    BoundedGrow(y.log, d, q, y.recvd, x.reqs, |y.last|);
    CoveredGrow(y.log, d, q, y.recvd, x.reqs, |y.last|);
    assert LastOk(y'.log, y'.last);
    RxAfter(y.ep, a);
  }

  /** A request that the transport hands up has not been seen before. */
  lemma NewRequest(x: Side, y: Side, a: Action)
    requires CanStep(y, x, a) && Takes(y.ep, a) && a.d.seg.ReadReq?
    requires RecvdFrom(y.recvd, y.ep.rx, x.log) && Honest(x) && ReqLog(x.log, x.reqs)
    ensures a.d.seg.msn !in y.recvd && 1 <= a.d.seg.msn <= |x.reqs| && a.d.seg.req == x.reqs[a.d.seg.msn - 1]
    ensures RecvdFrom(Advance(y, a).recvd, Advance(y, a).ep.rx, x.log)
  {
  }

  /** y takes up a request. */
  lemma RequestKeeps(x: Side, y: Side, a: Action)
    requires CanStep(y, x, a) && Takes(y.ep, a) && a.d.seg.ReadReq? && RespInv(x, y)
    requires Honest(x) && ReqLog(x.log, x.reqs) && (forall k :: 0 <= k < |x.reqs| ==> x.reqs[k].size > 0)
    requires |x.reqs| <= |y.last| + y.ep.cfg.irdMax
    ensures RespInv(x, Advance(y, a))
  {
    NewRequest(x, y, a);
    RequestEffect(y, a);
    StoredState(x, y, Advance(y, a), a.d.seg.msn, a.d.psn);
  }

  lemma StoredState(x: Side, y: Side, y': Side, m: nat, p: nat)
    requires RespState(y.ep.rr, y.recvd, x.reqs, y.log, y.last)
    requires |x.reqs| <= |y.last| + |y.ep.rr.slots| && (forall k :: 0 <= k < |x.reqs| ==> x.reqs[k].size > 0)
    requires 1 <= m <= |x.reqs| && m !in y.recvd
    requires y'.ep.rr == StoreRead(y.ep.rr, m, x.reqs[m - 1]).0 && y'.recvd == y.recvd[m := p]
    requires y'.log == y.log && y'.last == y.last
    ensures RespState(y'.ep.rr, y'.recvd, x.reqs, y'.log, y'.last)
  {
    StoreKeepsState(y.log, y.ep.rr, y.recvd, x.reqs, y.last, m, p);
  }

  lemma RequestEffect(y: Side, a: Action)
    requires Wf(y.ep) && Enabled(y.ep, a) && Takes(y.ep, a) && a.d.seg.ReadReq?
    ensures var y' := Advance(y, a);
            && y'.ep.rr == StoreRead(y.ep.rr, a.d.seg.msn, a.d.seg.req).0
            && y'.recvd == y.recvd[a.d.seg.msn := a.d.psn]
            && y'.log == y.log && y'.last == y.last
  {
  }

  lemma StoreKeepsState(log: seq<Pending>, q: ReadQ, recvd: map<nat, nat>, reqs: seq<ReadInfo>, last: seq<nat>, m: nat, p: nat)
    requires RespState(q, recvd, reqs, log, last)
    requires |reqs| <= |last| + |q.slots| && (forall k :: 0 <= k < |reqs| ==> reqs[k].size > 0)
    requires 1 <= m <= |reqs| && m !in recvd
    ensures StoreRead(q, m, reqs[m - 1]).1
    ensures RespState(StoreRead(q, m, reqs[m - 1]).0, recvd[m := p], reqs, log, last)
  {
    StoreKeepsSlots(q, recvd, reqs, |last|, m, p);
    StoreKeepsLog(log, q, recvd, reqs, |last|, m, p);
  }

  /** The log gains segments that are not responses, and more may be accepted. */
  lemma RespLogGrows(log: seq<Pending>, more: seq<Pending>, q: ReadQ, recvd: map<nat, nat>, reqs: seq<ReadInfo>, last: seq<nat>)
    requires |q.slots| > 0 && RespsOk(log, reqs) && RespOrder(log) && LastOk(log, last)
    requires RespBounded(log, q, reqs, recvd) && RespCovered(log, q, reqs, recvd)
    requires forall k :: 0 <= k < |more| ==> !more[k].owner.ByRead?
    ensures RespsOk(log + more, reqs) && RespOrder(log + more) && LastOk(log + more, last)
    ensures RespBounded(log + more, q, reqs, recvd) && RespCovered(log + more, q, reqs, recvd)
  {
    var log' := log + more;
    forall p | 0 <= p < |log'| ensures RespOk(log'[p], reqs) {
      if p < |log| { assert RespOk(log[p], reqs); }
    }
    forall p, r | 0 <= p < r < |log'| ensures RespBefore(log'[p], log'[r]) {
      if r < |log| { assert RespBefore(log[p], log[r]); }
    }
    forall m, b | 1 <= m <= |reqs| && reqs[m - 1].sinkTo <= b < SentUpTo(q, reqs, recvd, m)
      ensures ByteSent(log', m, b)
    {
      ByteStays(log, more, m, b);
    }
  }

  lemma ResponderKeeps(x: Side, y: Side, a: Action)
    requires CanStep(y, x, a) && RespInv(x, y)
    requires Honest(x) && ReqLog(x.log, x.reqs) && (forall k :: 0 <= k < |x.reqs| ==> x.reqs[k].size > 0)
    requires |y.log| == Next(y.ep.tx) && |x.reqs| <= |y.last| + y.ep.cfg.irdMax
    ensures RespInv(x, Advance(y, a))
  {
    if a.Respond? {
      RespondKeeps(x, y, a);
    } else if Takes(y.ep, a) && a.d.seg.ReadReq? {
      RequestKeeps(x, y, a);
    } else {
      OtherKeeps(x, y, a);
    }
  }

  lemma ResponderIdle(e: Ep, a: Action)
    requires Wf(e) && Enabled(e, a) && !a.Respond? && !(Takes(e, a) && a.d.seg.ReadReq?)
    ensures Do(e, a).rr == e.rr
    ensures forall k :: 0 <= k < |NewPending(e, a)| ==> !NewPending(e, a)[k].owner.ByRead?
  {
  }

  lemma OtherKeeps(x: Side, y: Side, a: Action)
    requires Wf(y.ep) && Enabled(y.ep, a) && !a.Respond? && !(Takes(y.ep, a) && a.d.seg.ReadReq?) && RespInv(x, y)
    ensures RespInv(x, Advance(y, a))
  {
    RxAfter(y.ep, a);
    ResponderIdle(y.ep, a);
    RespLogGrows(y.log, NewPending(y.ep, a), y.ep.rr, y.recvd, x.reqs, y.last);
  }

  /** One more request: nothing of it has been received or answered. */
  lemma MoreRequests(y: Side, reqs: seq<ReadInfo>, r: ReadInfo)
    requires |y.ep.rr.slots| > 0
    requires SlotsOk(y.ep.rr, y.recvd, reqs) && RecvdOk(y.ep.rr, y.recvd, reqs, |y.last|)
    requires RespsOk(y.log, reqs) && RespBounded(y.log, y.ep.rr, reqs, y.recvd) && RespCovered(y.log, y.ep.rr, reqs, y.recvd)
    ensures SlotsOk(y.ep.rr, y.recvd, reqs + [r]) && RecvdOk(y.ep.rr, y.recvd, reqs + [r], |y.last|)
    ensures RespsOk(y.log, reqs + [r])
    ensures RespBounded(y.log, y.ep.rr, reqs + [r], y.recvd) && RespCovered(y.log, y.ep.rr, reqs + [r], y.recvd)
  {
    var q, reqs' := y.ep.rr, reqs + [r];
    forall p | 0 <= p < |y.log| ensures RespOk(y.log[p], reqs') {
      assert RespOk(y.log[p], reqs);
    }
    if |y.last| > 0 { assert |y.last| in y.recvd; }
    forall m, b | 1 <= m <= |reqs'| && reqs'[m - 1].sinkTo <= b < SentUpTo(q, reqs', y.recvd, m)
      ensures ByteSent(y.log, m, b)
    {
      assert m <= |reqs|;
      assert SentUpTo(q, reqs', y.recvd, m) == SentUpTo(q, reqs, y.recvd, m);
    }
  }

  lemma RequesterKeepsResponder(x: Side, y: Side, a: Action)
    requires Wf(x.ep) && Enabled(x.ep, a) && RespInv(x, y)
    ensures RespInv(Advance(x, a), y)
  {
    if a.RequestRead? { MoreRequests(y, x.reqs, x.ep.sq.wrs[a.w].op.req); }
  }
}
