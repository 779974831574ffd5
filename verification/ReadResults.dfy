/** What the completion of RDMA READs and other transfers means over whole runs: which pops
    complete a READ, and where the bytes come from. */
module ReadResults {
  import opened Iov
  import opened Ddp
  import opened SendQueue
  import opened ReadQueue
  import opened Endpoint
  import opened System
  import opened Accounting
  import opened Segments
  import opened ReadRequester
  import opened ReadResponder
  import opened Invariant
  import opened Theorems

  // ---- Completed sends and writes ----

  lemma {:induction false} UnackedNone(pend: seq<Pending>, w: nat, k: nat)
    requires Unacked(pend, w) == 0 && k < |pend| && pend[k].owner == ByWqe(w)
    ensures DdpLength(pend[k].seg) == 0
  {
    if k > 0 { UnackedNone(pend[1..], w, k - 1); }
  }

  /** What a completed send or write means at the peer: every byte of it is in a segment that the
      peer has handed to DDP. */
  lemma CompletedTransferIsTaken(x: Side, y: Side, w: nat, b: nat)
    requires Occurs(x, y) && !x.ep.closed && w < |x.ep.sq.retired| && w < |x.ep.sq.wrs|
    requires !x.ep.sq.wrs[w].op.OpRead? && b < Total(x.ep.sq.wrs[w])
    ensures exists p :: p in y.taken && 0 <= p < |x.log| && PieceCovers(x.ep.sq.wrs, x.log[p], w, b)
  {
    CompletedPrefix(x, y, w);
    BytesConserved(x, y, w);
    SegmentsTile(x, y, w, b);
    assert Covered(x.log, x.ep.sq.wrs, w, b);
    var p :| 0 <= p < |x.log| && PieceCovers(x.ep.sq.wrs, x.log[p], w, b);
    WindowHolds(x, y);
    if x.ep.tx.head <= p {
      UnackedNone(x.ep.tx.pend, w, p - x.ep.tx.head);
      assert false;
    }
    NothingIsLost(x, y, p);
    ExactlyOnce(x, y);
  }

  // ---- Pops and completed READs ----

  /** The READs among the first n requests that are marked COMPLETE. */
  function MarkedReads(wrs: seq<Wr>, wqs: seq<Wq>, n: nat): nat
    requires n <= |wrs| == |wqs|
  {
    if n == 0 then 0
    else MarkedReads(wrs, wqs, n - 1) + if wrs[n - 1].op.OpRead? && wqs[n - 1].state.Complete? then 1 else 0
  }

  /** The oldest READ of the active list is already COMPLETE: find_first_rdma_read returns it all
      the same. */
  predicate OldestIsDone(q: SendQ) {
    && InTable(q)
    && var k := FirstRead(q.wrs, q.active);
       k < |q.active| && q.wqs[q.active[k]].state.Complete?
  }

  lemma {:induction false} MarkedSame(wrs: seq<Wr>, wqs: seq<Wq>, wqs': seq<Wq>, n: nat)
    requires n <= |wrs| == |wqs| == |wqs'|
    requires forall w :: 0 <= w < n && wrs[w].op.OpRead? ==> (wqs'[w].state.Complete? <==> wqs[w].state.Complete?)
    ensures MarkedReads(wrs, wqs', n) == MarkedReads(wrs, wqs, n)
  {
    if n > 0 { MarkedSame(wrs, wqs, wqs', n - 1); }
  }

  lemma {:induction false} MarkedPost(wrs: seq<Wr>, wqs: seq<Wq>, wr: Wr, n: nat)
    requires n <= |wrs| == |wqs|
    ensures MarkedReads(wrs + [wr], wqs + [WQ_START], n) == MarkedReads(wrs, wqs, n)
  {
    if n > 0 { MarkedPost(wrs, wqs, wr, n - 1); }
  }

  lemma {:induction false} MarkedOne(wrs: seq<Wr>, wqs: seq<Wq>, wqs': seq<Wq>, w: nat, n: nat)
    requires w < n <= |wrs| == |wqs| && wrs[w].op.OpRead? && wqs' == wqs[w := wqs[w].(state := Complete)]
    ensures MarkedReads(wrs, wqs', n) == MarkedReads(wrs, wqs, n) + if wqs[w].state.Complete? then 0 else 1
  {
    if w < n - 1 {
      MarkedOne(wrs, wqs, wqs', w, n - 1);
    } else {
      MarkedSame(wrs, wqs, wqs', n - 1);
    }
  }

  function Marked(q: SendQ): nat
    requires |q.wqs| == |q.wrs|
  {
    MarkedReads(q.wrs, q.wqs, |q.wrs|)
  }

  /** A pop marks one more READ complete if and only if the oldest one was not. */
  lemma PopMarksIff(q: SendQ, p: nat)
    requires InTable(q) && FirstRead(q.wrs, q.active) < |q.active|
    ensures |CompleteRead(q, p).wqs| == |CompleteRead(q, p).wrs|
    ensures Marked(CompleteRead(q, p)) == Marked(q) + if OldestIsDone(q) then 0 else 1
  {
    var w := q.active[FirstRead(q.wrs, q.active)];
    MarkedOne(q.wrs, q.wqs, q.wqs[w := q.wqs[w].(state := Complete)], w, |q.wrs|);
  }

  /** The READs marked complete are the same. */
  ghost predicate SameMarks(q: SendQ, q': SendQ) {
    && q'.wrs == q.wrs && |q'.wqs| == |q.wqs| == |q.wrs|
    && forall w :: 0 <= w < |q.wrs| && q.wrs[w].op.OpRead? ==> (q'.wqs[w].state.Complete? <==> q.wqs[w].state.Complete?)
  }

  lemma AckMarksNone(q: SendQ, w: nat, len: nat)
    requires InTable(q) && w < |q.wrs|
    ensures SameMarks(q, ProcessAck(q, w, len)) && SameMarks(q, TryComplete(q, w))
  {
  }

  lemma FreeMarksNone(e: Ep)
    requires Wf(e) && Enabled(e, FreeAcked) && QueueOk(e)
    ensures SameMarks(e.sq, Do(e, FreeAcked).sq)
  {
    var d := e.tx.pend[0];
    if d.owner.ByWqe? { AckMarksNone(e.sq, d.owner.w, DdpLength(d.seg)); }
  }

  lemma RetireMarksNone(e: Ep, w: nat)
    requires Wf(e) && Enabled(e, Retire(w)) && QueueOk(e)
    ensures SameMarks(e.sq, Do(e, Retire(w)).sq)
  {
    ActiveRange(e.sq, w);
    AckMarksNone(e.sq, w, 0);
  }

  lemma MarksStay(e: Ep, a: Action)
    requires Wf(e) && Enabled(e, a) && QueueOk(e) && !a.PopRead? && !a.PostSendWr?
    ensures SameMarks(e.sq, Do(e, a).sq)
  {
    match a
    case FreeAcked => FreeMarksNone(e);
    case Retire(w) => RetireMarksNone(e, w);
    case ActivateWqe => assert e.sq.wqs[e.sq.queue[0]].state.Init?;
    case _ =>
  }

  /** Nothing else marks a READ. */
  lemma OthersMarkNone(e: Ep, a: Action)
    requires Wf(e) && Enabled(e, a) && QueueOk(e) && !a.PopRead?
    ensures |Do(e, a).sq.wqs| == |Do(e, a).sq.wrs| && Marked(Do(e, a).sq) == Marked(e.sq)
  {
    var q := e.sq;
    if a.PostSendWr? {
      MarkedPost(q.wrs, q.wqs, a.wr, |q.wrs|);
    } else {
      MarksStay(e, a);
      MarkedSame(q.wrs, q.wqs, Do(e, a).sq.wqs, |q.wrs|);
    }
  }

  ghost predicate PopsInVain(x: Side, x': Side) {
    |x.popped| < |x'.popped| && OldestIsDone(x.ep.sq)
  }

  /** The pops of a run so far that found the oldest READ COMPLETE. */
  ghost function InVain(r: seq<Sys>, i: nat, flip: bool): nat
    requires i < |r|
  {
    if i == 0 then 0
    else InVain(r, i - 1, flip) + if PopsInVain(Turned(r[i - 1], flip).left, Turned(r[i], flip).left) then 1 else 0
  }

  lemma MarkedStep(x: Side, y: Side, a: Action)
    requires Occurs(x, y) && CanStep(x, y, a)
    ensures var x' := Advance(x, a);
            && |x.ep.sq.wqs| == |x.ep.sq.wrs| && |x'.ep.sq.wqs| == |x'.ep.sq.wrs|
            && Marked(x'.ep.sq) - Marked(x.ep.sq) ==
               |x'.popped| - |x.popped| - if PopsInVain(x, x') then 1 else 0
  {
    OccursQueued(x, y);
    if a.PopRead? {
      PopFindsSentRead(x, y);
      PopMarksIff(x.ep.sq, MinOf(x.ep.sq.heap));
    } else {
      OthersMarkNone(x.ep, a);
    }
  }

  /** Over every run the READs marked complete and the pops that found the oldest READ already
      COMPLETE add up to the pops: such a pop completes nothing, now or later. */
  lemma {:induction false} PopsAreMarksOrInVain(r: seq<Sys>, i: nat, flip: bool)
    requires IsRun(r) && i < |r|
    ensures var x := Turned(r[i], flip).left;
            |x.ep.sq.wqs| == |x.ep.sq.wrs| && Marked(x.ep.sq) + InVain(r, i, flip) == |x.popped|
  {
    if i == 0 {
      assert Legal(r, 0);
    } else {
      PopsAreMarksOrInVain(r, i - 1, flip);
      var a, mine := RunStep(r, i, flip);
      if mine {
        OccursAt(r, i - 1, flip);
        MarkedStep(Turned(r[i - 1], flip).left, Turned(r[i - 1], flip).right, a);
      }
    }
  }

  lemma {:induction false} InVainIffSome(r: seq<Sys>, i: nat, flip: bool)
    requires i < |r|
    ensures InVain(r, i, flip) > 0 <==>
              exists j :: 0 < j <= i && PopsInVain(Turned(r[j - 1], flip).left, Turned(r[j], flip).left)
  {
    if i > 0 { InVainIffSome(r, i - 1, flip); }
  }

  /** So every pop completed a READ if and only if none found the oldest one COMPLETE; and each
      that did leaves the READs completed one short of the READs sent, from then on. */
  lemma EveryPopCompletesIff(r: seq<Sys>, i: nat, flip: bool)
    requires IsRun(r) && i < |r|
    ensures var x := Turned(r[i], flip).left;
            && |x.ep.sq.wqs| == |x.ep.sq.wrs|
            && (Marked(x.ep.sq) == |x.popped| <==>
                forall j :: 0 < j <= i ==> !PopsInVain(Turned(r[j - 1], flip).left, Turned(r[j], flip).left))
            && Marked(x.ep.sq) + InVain(r, i, flip) <= |x.reqs|
  {
    PopsAreMarksOrInVain(r, i, flip);
    InVainIffSome(r, i, flip);
    OccursAt(r, i, flip);
    var x, y := Turned(r[i], flip).left, Turned(r[i], flip).right;
    OccursReads(x, y);
    if |x.popped| > 0 { PopMeansPlaced(x, y, |x.popped| - 1, 0); }
    if |y.last| > 0 { assert |y.last| in y.recvd; }
  }

  /** READs that were retired are marked, and others may be. */
  lemma {:induction false} RetiredAreMarked(wrs: seq<Wr>, wqs: seq<Wq>, m: nat, n: nat)
    requires m <= n <= |wrs| == |wqs| && forall w :: 0 <= w < m ==> wqs[w].state.Complete?
    ensures ReadCount(wrs, m) <= MarkedReads(wrs, wqs, n)
    decreases n
  {
    if n > 0 {
      if m < n { RetiredAreMarked(wrs, wqs, m, n - 1); } else { RetiredAreMarked(wrs, wqs, m - 1, n - 1); }
    }
  }

  /** A pop in vain takes a unit of the ORD for good: it stays counted as outstanding. */
  lemma VainPopsHoldDepth(r: seq<Sys>, i: nat, flip: bool)
    requires IsRun(r) && i < |r| && !Turned(r[i], flip).left.ep.closed
    ensures InVain(r, i, flip) <= Turned(r[i], flip).left.ep.sq.ordActive
  {
    EveryPopCompletesIff(r, i, flip);
    OccursAt(r, i, flip);
    var x, y := Turned(r[i], flip).left, Turned(r[i], flip).right;
    OccursQueued(x, y);
    DepthBounded(x, y);
    RetiredAreMarked(x.ep.sq.wrs, x.ep.sq.wqs, |x.ep.sq.retired|, |x.ep.sq.wrs|);
  }

  lemma CfgStays(e: Ep, a: Action)
    requires Wf(e) && Enabled(e, a)
    ensures Do(e, a).cfg == e.cfg
  {
  }

  lemma {:induction false} VainPopsGrow(r: seq<Sys>, i: nat, j: nat, flip: bool)
    requires IsRun(r) && i <= j < |r|
    ensures InVain(r, i, flip) <= InVain(r, j, flip)
    ensures Turned(r[j], flip).left.ep.cfg == Turned(r[i], flip).left.ep.cfg
  {
    if i < j {
      VainPopsGrow(r, i, j - 1, flip);
      var a, mine := RunStep(r, j, flip);
      if mine { CfgStays(Turned(r[j - 1], flip).left.ep, a); }
    }
  }

  lemma NoDepthNoRead(e: Ep, w: nat)
    requires Wf(e) && (e.closed || e.cfg.ordMax <= e.sq.ordActive)
    ensures !Enabled(e, RequestRead(w))
  {
  }

  /** After as many as the ORD no READ is ever sent again. */
  lemma VainPopsStopReads(r: seq<Sys>, i: nat, j: nat, flip: bool, w: nat)
    requires IsRun(r) && i <= j < |r| && Turned(r[i], flip).left.ep.cfg.ordMax <= InVain(r, i, flip)
    ensures var x := Turned(r[j], flip).left; Wf(x.ep) && !Enabled(x.ep, RequestRead(w))
  {
    VainPopsGrow(r, i, j, flip);
    OccursAt(r, j, flip);
    var x, y := Turned(r[j], flip).left, Turned(r[j], flip).right;
    OccursWired(x, y);
    if !x.ep.closed { VainPopsHoldDepth(r, j, flip); }
    NoDepthNoRead(x.ep, w);
  }

  // ---- Where the bytes of a response come from ----

  /** Every response segment a step adds carries the bytes of the source memory where its slot
      points to. */
  ghost predicate CopiesFrom(mem: nat -> byte, y: Side, y': Side) {
    forall p {:trigger y'.log[p]} :: |y.log| <= p < |y'.log| && y'.log[p].seg.ReadResp? ==>
      && |y.ep.rr.slots| > 0
      && forall k :: 0 <= k < |y'.log[p].seg.data| ==> y'.log[p].seg.data[k] == mem(SlotOf(y.ep.rr, y.ep.rr.headMsn).vaddr + k)
  }

  /** The responder of the run reads one unchanging memory. */
  ghost predicate ReadsFrom(mem: nat -> byte, r: seq<Sys>, flip: bool) {
    forall j {:trigger r[j]} :: 0 < j < |r| ==> CopiesFrom(mem, Turned(r[j - 1], flip).right, Turned(r[j], flip).right)
  }

  /** The segment has, at every offset, the byte at the corresponding source address. */
  ghost predicate FromSource(mem: nat -> byte, d: Pending, reqs: seq<ReadInfo>) {
    d.owner.ByRead? ==>
      && d.seg.ReadResp? && 1 <= d.owner.msn <= |reqs| && reqs[d.owner.msn - 1].sinkTo <= d.seg.to
      && forall k :: 0 <= k < |d.seg.data| ==>
           d.seg.data[k] == mem(reqs[d.owner.msn - 1].srcTo + (d.seg.to - reqs[d.owner.msn - 1].sinkTo) + k)
  }

  /** The slot at the head, when in use, is that of a READ asked for, and its source pointer has come
      as far as its sink offset. */
  lemma HeadSlotPoints(x: Side, y: Side)
    requires Occurs(x, y) && |y.ep.rr.slots| > 0 && SlotOf(y.ep.rr, y.ep.rr.headMsn).active
    ensures var q := y.ep.rr; 1 <= q.headMsn <= |x.reqs| && SlotHolds(SlotOf(q, q.headMsn), x.reqs[q.headMsn - 1], true)
  {
    OccursReads(x, y);
    assert y.ep.rr.headMsn in y.recvd;
  }

  lemma SlotSource(mem: nat -> byte, s: Slot, d: Pending, reqs: seq<ReadInfo>)
    requires d.owner.ByRead? && 1 <= d.owner.msn <= |reqs| && SlotHolds(s, reqs[d.owner.msn - 1], true)
    requires d.seg.ReadResp? && d.seg.to == s.to
    requires forall k :: 0 <= k < |d.seg.data| ==> d.seg.data[k] == mem(s.vaddr + k)
    ensures FromSource(mem, d, reqs)
  {
  }

  lemma NewResponse(x: Side, y: Side, a: Action, mem: nat -> byte, y': Side)
    requires Occurs(x, y) && CanStep(y, x, a) && y' == Advance(y, a) && CopiesFrom(mem, y, y')
    ensures forall p :: |y.log| <= p < |y'.log| ==> FromSource(mem, y'.log[p], x.reqs)
  {
    forall p | |y.log| <= p < |y'.log| ensures FromSource(mem, y'.log[p], x.reqs) {
      var d := y'.log[p];
      assert p == |y.log| && d == NewPending(y.ep, a)[0];
      if a.Respond? {
        HeadSlotPoints(x, y);
        assert d.seg.ReadResp?;
        SlotSource(mem, SlotOf(y.ep.rr, y.ep.rr.headMsn), d, x.reqs);
      }
    }
  }

  /** For an unchanging source memory: every response segment ever sent carries the bytes at the
      addresses its READ asked for. */
  lemma {:induction false} ResponsesFromSource(r: seq<Sys>, i: nat, flip: bool, mem: nat -> byte)
    requires IsRun(r) && i < |r| && ReadsFrom(mem, r, flip)
    ensures var x, y := Turned(r[i], flip).left, Turned(r[i], flip).right;
            forall p :: 0 <= p < |y.log| ==> FromSource(mem, y.log[p], x.reqs)
  {
    if i == 0 {
      assert Legal(r, 0);
    } else {
      var s, s' := Turned(r[i - 1], flip), Turned(r[i], flip);
      var a, mine := RunStep(r, i, flip);
      OccursAt(r, i - 1, flip);
      ResponsesFromSource(r, i - 1, flip, mem);
      if mine {
        StillFromSource(mem, s.right.log, s.left.reqs, s'.left.reqs);
      } else {
        assert CopiesFrom(mem, Turned(r[i - 1], flip).right, Turned(r[i], flip).right);
        NewResponse(s.left, s.right, a, mem, s'.right);
        OldOrNew(mem, s.right.log, s'.right.log, s.left.reqs);
      }
    }
  }

  lemma StillFromSource(mem: nat -> byte, log: seq<Pending>, reqs: seq<ReadInfo>, reqs': seq<ReadInfo>)
    requires reqs <= reqs' && forall p :: 0 <= p < |log| ==> FromSource(mem, log[p], reqs)
    ensures forall p :: 0 <= p < |log| ==> FromSource(mem, log[p], reqs')
  {
    forall p | 0 <= p < |log| ensures FromSource(mem, log[p], reqs') {
      assert FromSource(mem, log[p], reqs);
    }
  }

  lemma OldOrNew(mem: nat -> byte, log: seq<Pending>, log': seq<Pending>, reqs: seq<ReadInfo>)
    requires log <= log' && forall p :: 0 <= p < |log| ==> FromSource(mem, log[p], reqs)
    requires forall p :: |log| <= p < |log'| ==> FromSource(mem, log'[p], reqs)
    ensures forall p :: 0 <= p < |log'| ==> FromSource(mem, log'[p], reqs)
  {
    forall p | 0 <= p < |log'| ensures FromSource(mem, log'[p], reqs) {
      if p < |log| { assert log'[p] == log[p]; }
    }
  }

  /** The segment covers sink offset b with the byte at the source address the READ asked for. */
  ghost predicate Brings(mem: nat -> byte, g: Segment, req: ReadInfo, b: nat) {
    && g.ReadResp? && req.sinkTo <= b && g.to <= b < g.to + |g.data|
    && g.data[b - g.to] == mem(req.srcTo + (b - req.sinkTo))
  }

  lemma SourceBrings(mem: nat -> byte, d: Pending, reqs: seq<ReadInfo>, m: nat, b: nat)
    requires FromSource(mem, d, reqs) && RespCovers(d, m, b)
    ensures 1 <= m <= |reqs| && Brings(mem, d.seg, reqs[m - 1], b)
  {
    var k := b - d.seg.to;
    assert d.seg.data[k] == mem(reqs[m - 1].srcTo + (d.seg.to - reqs[m - 1].sinkTo) + k);
  }

  /** A READ that completed has its data from the source: for every byte of its sink range some
      segment that has been handed to DDP carries the byte at the corresponding source address. */
  lemma CompletedReadHasSourceBytes(r: seq<Sys>, i: nat, flip: bool, mem: nat -> byte, w: nat, b: nat)
    requires IsRun(r) && i < |r| && ReadsFrom(mem, r, flip)
    requires var x := Turned(r[i], flip).left;
             && !x.ep.closed && w < |x.ep.sq.retired| && w < |x.ep.sq.wrs| && x.ep.sq.wrs[w].op.OpRead?
             && x.ep.sq.wrs[w].op.req.sinkTo <= b < x.ep.sq.wrs[w].op.req.sinkTo + x.ep.sq.wrs[w].op.req.size
    ensures var x, y := Turned(r[i], flip).left, Turned(r[i], flip).right;
            exists p :: p in x.taken && 0 <= p < |y.log| && Brings(mem, y.log[p].seg, x.ep.sq.wrs[w].op.req, b)
  {
    var x, y := Turned(r[i], flip).left, Turned(r[i], flip).right;
    OccursAt(r, i, flip);
    CompletedReadIsPlaced(x, y, w, b);
    var m := ReadCount(x.ep.sq.wrs, w) + 1;
    var p :| p in x.taken && p < |y.log| && RespCovers(y.log[p], m, b);
    ResponsesFromSource(r, i, flip, mem);
    SourceBrings(mem, y.log[p], x.reqs, m, b);
    RetiredReadIs(x, y, w);
  }

  lemma RetiredReadIs(x: Side, y: Side, w: nat)
    requires Occurs(x, y) && !x.ep.closed && w < |x.ep.sq.retired| && w < |x.ep.sq.wrs| && x.ep.sq.wrs[w].op.OpRead?
    ensures var m := ReadCount(x.ep.sq.wrs, w); m < |x.reqs| && x.ep.sq.wrs[w].op == OpRead(x.reqs[m])
  {
    OccursReads(x, y);
    CompletedPrefix(x, y, w);
    assert ReadOk(x.ep.sq, w, x.reqs, |x.popped|);
  }
}
