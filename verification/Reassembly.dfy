/** Reassembly: whatever the order in which segments arrive, a receive that completes with
    success holds the message with its MSN. */
module Reassembly {
  import opened Iov
  import opened Ddp
  import opened TrpReceive
  import opened RecvQueue
  import opened Endpoint
  import opened System
  import opened Transport
  import opened Accounting
  import opened Segments

  // ---- Counting bytes ----

  lemma {:induction false} BoundedSize(s: set<nat>, n: nat)
    requires forall b :: b in s ==> b < n
    ensures |s| <= n
  {
    if n == 0 {
      assert s == {};
    } else {
      BoundedSize(s - {n - 1}, n - 1);
    }
  }

  /** As many distinct offsets below n as there are: all of them. */
  lemma FullSet(s: set<nat>, n: nat, b: nat)
    requires (forall c :: c in s ==> c < n) && |s| == n && b < n
    ensures b in s
  {
    if b !in s {
      BoundedSize(s + {b}, n);
      assert false;
    }
  }

  lemma {:induction false} RangeSize(mo: nat, len: nat, p: nat)
    ensures |Range(mo, len, p)| == len
  {
    if len == 0 {
      assert Range(mo, 0, p) == map[];
    } else {
      RangeSize(mo, len - 1, p);
      assert Range(mo, len, p) == Range(mo, len - 1, p)[mo + len - 1 := p];
    }
  }

  lemma DisjointUnionSize(m: map<nat, nat>, n: map<nat, nat>)
    requires m.Keys !! n.Keys
    ensures |m + n| == |m| + |n|
  {
  }

  // ---- The invariant ----

  /** The bytes placed so far are those of the message. */
  ghost predicate BytesOk(bufs: seq<seq<byte>>, got: map<nat, nat>, msg: seq<byte>) {
    forall b :: b in got ==> b < |Flat(bufs)| && b < |msg| && Flat(bufs)[b] == msg[b]
  }

  /** A receive WQE against the bytes placed in it and the messages of the peer. Its input size is known
      exactly when the last byte is there, and it is complete exactly when all bytes are. */
  ghost predicate WqeOk(r: Rwqe, got: map<nat, nat>, msgs: seq<seq<byte>>) {
    && r.recvSize == |got|
    && (got != map[] ==> 1 <= r.msn <= |msgs| && BytesOk(r.bufs, got, msgs[r.msn - 1]))
    && (r.inputSize != 0 <==> got != map[] && |msgs[r.msn - 1]| - 1 in got)
    && (r.inputSize != 0 ==> r.inputSize == |msgs[r.msn - 1]|)
    && (r.complete <==> r.recvSize == r.inputSize && r.inputSize > 0)
  }

  /** The first inputSize bytes of the scatter list are the message. */
  ghost predicate Holds(r: Rwqe, msg: seq<byte>) {
    && r.inputSize == |msg| <= |Flat(r.bufs)|
    && Flat(r.bufs)[..r.inputSize] == msg
  }

  predicate SegCovers(g: Segment, msn: nat, b: nat) {
    g.SendSeg? && g.msn == msn && g.mo <= b < g.mo + |g.data|
  }

  ghost predicate BroughtBy(p: nat, rx: Rx, log: seq<Pending>, msn: nat, b: nat) {
    Accepted(rx, p) && p < |log| && SegCovers(log[p].seg, msn, b)
  }

  /** Every placed byte was brought by an accepted segment, and only for MSNs given out. */
  ghost predicate GotOk(got: map<nat, map<nat, nat>>, rx: Rx, log: seq<Pending>, nextMsn: nat) {
    && (forall m :: m in got ==> m < nextMsn)
    && (forall m, b :: m in got && b in got[m] ==> BroughtBy(got[m][b], rx, log, m, b))
  }

  ghost predicate ActiveOk(q: RecvQ, got: map<nat, map<nat, nat>>, msgs: seq<seq<byte>>) {
    forall k :: 0 <= k < |q.active| ==> WqeOk(q.active[k], BytesOf(got, q.active[k].msn), msgs)
  }

  ghost predicate AllGot(got: map<nat, nat>, n: nat) {
    forall b :: 0 <= b < n ==> b in got
  }

  /** A receive completed with success holds its message, and every byte of it was placed. */
  ghost predicate CqesOk(q: RecvQ, got: map<nat, map<nat, nat>>, msgs: seq<seq<byte>>) {
    forall k :: 0 <= k < |q.cqes| && q.cqes[k].ok ==>
      k < |msgs| && Holds(q.cqes[k].wqe, msgs[k]) && AllGot(BytesOf(got, k + 1), |msgs[k]|)
  }

  ghost predicate RecvOk(q: RecvQ, got: map<nat, map<nat, nat>>, msgs: seq<seq<byte>>) {
    Numbered(q) && Blank(q) && ActiveOk(q, got, msgs) && CqesOk(q, got, msgs)
  }

  /** x sends, y receives. */
  ghost predicate ReasmInv(x: Side, y: Side) {
    var q, msgs := y.ep.rq, Messages(x.ep.sq.wrs);
    RecvOk(q, y.got, msgs) && GotOk(y.got, y.ep.rx, x.log, q.nextMsn)
  }

  // ---- Placement ----

  /** Placing a piece of the message makes its bytes right and leaves the others as they are. */
  lemma PlaceBytes(bufs: seq<seq<byte>>, msg: seq<byte>, mo: nat, data: seq<byte>, b: nat)
    requires mo + |data| <= |msg| && data == msg[mo..mo + |data|] && mo + |data| <= |Flat(bufs)|
    requires b < |Flat(bufs)| && b < |msg|
    requires mo <= b < mo + |data| || Flat(bufs)[b] == msg[b]
    ensures var flat := Flat(Scatter(bufs, data, mo)); b < |flat| && flat[b] == msg[b]
  {
    ScatterIsSplice(bufs, data, mo);
    SpliceAt(Flat(bufs), mo, data, b);
  }

  /** A piece of the message goes into its receive. */
  lemma PlaceOne(r: Rwqe, got: map<nat, nat>, msgs: seq<seq<byte>>, mo: nat, last: bool, data: seq<byte>, p: nat)
    requires WqeOk(r, got, msgs)
    requires 1 <= r.msn <= |msgs| && |data| > 0 && mo + |data| <= |msgs[r.msn - 1]|
    requires data == msgs[r.msn - 1][mo..mo + |data|] && (last <==> mo + |data| == |msgs[r.msn - 1]|)
    requires mo + |data| <= |Flat(r.bufs)|
    requires forall b :: mo <= b < mo + |data| ==> b !in got
    ensures WqeOk(PlaceIn(r, mo, last, data), got + Range(mo, |data|, p), msgs)
  {
    PlacedSize(got, mo, |data|, p);
    PlacedBytes(r.bufs, got, msgs[r.msn - 1], mo, data, p);
    StillOpen(r, got, msgs, mo);
    StaysOk(r, PlaceIn(r, mo, last, data), got, got + Range(mo, |data|, p), msgs);
  }

  lemma StaysOk(r: Rwqe, r': Rwqe, got: map<nat, nat>, got': map<nat, nat>, msgs: seq<seq<byte>>)
    requires WqeOk(r, got, msgs) && 1 <= r.msn <= |msgs|
    requires r'.msn == r.msn && r'.recvSize == |got'| > 0
    requires BytesOk(r'.bufs, got', msgs[r.msn - 1])
    requires r'.inputSize == if |msgs[r.msn - 1]| - 1 in got' then |msgs[r.msn - 1]| else 0
    requires r'.complete <==> r'.recvSize == r'.inputSize
    ensures WqeOk(r', got', msgs)
  {
  }

  /** A receive that lacks a byte of its message is not complete. */
  lemma StillOpen(r: Rwqe, got: map<nat, nat>, msgs: seq<seq<byte>>, b: nat)
    requires WqeOk(r, got, msgs) && 1 <= r.msn <= |msgs| && b < |msgs[r.msn - 1]| && b !in got
    ensures !r.complete
  {
    if r.complete {
      FullSet(got.Keys, |msgs[r.msn - 1]|, b);
      assert false;
    }
  }

  lemma PlacedSize(got: map<nat, nat>, mo: nat, len: nat, p: nat)
    requires forall b :: mo <= b < mo + len ==> b !in got
    ensures |got + Range(mo, len, p)| == |got| + len
  {
    RangeSize(mo, len, p);
    DisjointUnionSize(got, Range(mo, len, p));
  }

  lemma PlacedBytes(bufs: seq<seq<byte>>, got: map<nat, nat>, msg: seq<byte>, mo: nat, data: seq<byte>, p: nat)
    requires got != map[] ==> BytesOk(bufs, got, msg)
    requires mo + |data| <= |msg| && data == msg[mo..mo + |data|] && mo + |data| <= |Flat(bufs)|
    ensures BytesOk(Scatter(bufs, data, mo), got + Range(mo, |data|, p), msg)
  {
    var got' := got + Range(mo, |data|, p);
    forall b | b in got'
      ensures b < |Flat(Scatter(bufs, data, mo))| && b < |msg| && Flat(Scatter(bufs, data, mo))[b] == msg[b]
    {
      if b in got { assert got != map[]; }
      PlaceBytes(bufs, msg, mo, data, b);
    }
  }

  /** A complete receive holds its message. */
  lemma CompleteHolds(r: Rwqe, got: map<nat, nat>, msgs: seq<seq<byte>>)
    requires WqeOk(r, got, msgs) && r.complete
    ensures 1 <= r.msn <= |msgs| && Holds(r, msgs[r.msn - 1]) && AllGot(got, |msgs[r.msn - 1]|)
  {
    var msg := msgs[r.msn - 1];
    forall b | 0 <= b < |msg| ensures b in got && b < |Flat(r.bufs)| && Flat(r.bufs)[b] == msg[b] {
      FullSet(got.Keys, |msg|, b);
    }
    FullSet(got.Keys, |msg|, |msg| - 1);
  }

  lemma {:induction false} PostCompleteOk(q: RecvQ, got: map<nat, map<nat, nat>>, msgs: seq<seq<byte>>)
    requires Numbered(q) && ActiveOk(q, got, msgs) && CqesOk(q, got, msgs)
    ensures Numbered(PostComplete(q)) && ActiveOk(PostComplete(q), got, msgs) && CqesOk(PostComplete(q), got, msgs)
    ensures PostComplete(q).ring == q.ring && PostComplete(q).nextMsn == q.nextMsn
    decreases |q.active|
  {
    if q.active != [] && q.active[0].complete {
      var r := q.active[0];
      CompleteHolds(r, BytesOf(got, r.msn), msgs);
      PostCompleteOk(q.(active := q.active[1..], cqes := q.cqes + [RecvCqe(r, true)]), got, msgs);
    }
  }

  lemma RefilledOk(q: RecvQ, got: map<nat, map<nat, nat>>, msgs: seq<seq<byte>>)
    requires Numbered(q) && Blank(q) && ActiveOk(q, got, msgs) && CqesOk(q, got, msgs)
    requires forall m :: m in got ==> m < q.nextMsn
    ensures var q' := Refilled(q);
            Numbered(q') && Blank(q') && ActiveOk(q', got, msgs) && CqesOk(q', got, msgs) && q.nextMsn <= q'.nextMsn
  {
  }

  /** A new segment never brings a byte that is already there. */
  lemma NewBytes(x: Side, rx: Rx, got: map<nat, map<nat, nat>>, next: nat, p: nat, b: nat)
    requires SegInv(x) && GotOk(got, rx, x.log, next)
    requires p < |x.log| && !Accepted(rx, p) && x.log[p].seg.SendSeg?
    requires SegCovers(x.log[p].seg, x.log[p].seg.msn, b)
    ensures b !in BytesOf(got, x.log[p].seg.msn)
  {
    var wrs, wqs, m := x.ep.sq.wrs, x.ep.sq.wqs, x.log[p].seg.msn;
    if m in got && b in got[m] {
      var p' := got[m][b];
      assert BroughtBy(p', rx, x.log, m, b);
      assert SegOk(wrs, wqs, x.log[p]) && SegOk(wrs, wqs, x.log[p']);
      var w, w' := x.log[p].owner.w, x.log[p'].owner.w;
      if w < w' { MsnIsUnique(wrs, w, w'); }
      if w' < w { MsnIsUnique(wrs, w', w); }
      assert IsPiece(x.log[p]) && IsPiece(x.log[p']);
      assert false;
    }
  }

  /** A non-empty slice of the message its MSN names, flagged Last exactly at its end. */
  ghost predicate PieceOf(g: Segment, msgs: seq<seq<byte>>) {
    && g.SendSeg?
    && 1 <= g.msn <= |msgs| && |g.data| > 0 && g.mo + |g.data| <= |msgs[g.msn - 1]|
    && g.data == msgs[g.msn - 1][g.mo..g.mo + |g.data|]
    && (g.last <==> g.mo + |g.data| == |msgs[g.msn - 1]|)
  }

  /** A SEND segment in the log is a piece of the message its MSN names. */
  lemma PieceOfMessage(x: Side, p: nat)
    requires SegInv(x) && p < |x.log| && x.log[p].seg.SendSeg?
    ensures PieceOf(x.log[p].seg, Messages(x.ep.sq.wrs))
  {
    assert SegOk(x.ep.sq.wrs, x.ep.sq.wqs, x.log[p]);
    MessageAt(x.ep.sq.wrs, x.log[p].owner.w);
  }

  /** One receive of the active list is replaced, with the bytes of its MSN. */
  lemma OneReplaced(q: RecvQ, k: nat, r: Rwqe, got: map<nat, map<nat, nat>>, bytes: map<nat, nat>, msgs: seq<seq<byte>>)
    requires Numbered(q) && ActiveOk(q, got, msgs) && CqesOk(q, got, msgs) && k < |q.active|
    requires r.msn == q.active[k].msn && WqeOk(r, bytes, msgs)
    ensures var q', got' := q.(active := q.active[k := r]), got[r.msn := bytes];
            Numbered(q') && ActiveOk(q', got', msgs) && CqesOk(q', got', msgs)
  {
    var q', got' := q.(active := q.active[k := r]), got[r.msn := bytes];
    forall i | 0 <= i < |q'.active| ensures WqeOk(q'.active[i], BytesOf(got', q'.active[i].msn), msgs) {
      if i != k { assert BytesOf(got', q.active[i].msn) == BytesOf(got, q.active[i].msn); }
    }
    forall m | 1 <= m <= |q.cqes| ensures BytesOf(got', m) == BytesOf(got, m) { }
  }

  lemma PlacedOk(q: RecvQ, got: map<nat, map<nat, nat>>, msgs: seq<seq<byte>>, g: Segment, p: nat)
    requires Numbered(q) && ActiveOk(q, got, msgs) && CqesOk(q, got, msgs)
    requires PieceOf(g, msgs) && Fits(q, g.msn, g.mo, g.last, g.data)
    requires forall b :: g.mo <= b < g.mo + |g.data| ==> b !in BytesOf(got, g.msn)
    ensures var k := Lookup(q.active, g.msn);
            var q' := q.(active := q.active[k := PlaceIn(q.active[k], g.mo, g.last, g.data)]);
            var got' := got[g.msn := BytesOf(got, g.msn) + Range(g.mo, |g.data|, p)];
            Numbered(q') && ActiveOk(q', got', msgs) && CqesOk(q', got', msgs)
  {
    var k := Lookup(q.active, g.msn);
    PlaceOne(q.active[k], BytesOf(got, g.msn), msgs, g.mo, g.last, g.data, p);
    OneReplaced(q, k, PlaceIn(q.active[k], g.mo, g.last, g.data), got, BytesOf(got, g.msn) + Range(g.mo, |g.data|, p), msgs);
  }

  // ---- Every step keeps it ----

  /** The bytes stay accounted for when more is accepted, more is sent, or more MSNs are out. */
  lemma GotStays(got: map<nat, map<nat, nat>>, rx: Rx, rx': Rx, log: seq<Pending>, more: seq<Pending>, n: nat, n': nat)
    requires GotOk(got, rx, log, n) && RxGrows(rx, rx') && n <= n'
    ensures GotOk(got, rx', log + more, n')
  {
  }

  lemma GotAdded(got: map<nat, map<nat, nat>>, rx: Rx, log: seq<Pending>, n: nat, g: Segment, p: nat)
    requires GotOk(got, rx, log, n)
    requires g.SendSeg? && p < |log| && log[p].seg == g && Accepted(rx, p) && g.msn < n
    ensures GotOk(got[g.msn := BytesOf(got, g.msn) + Range(g.mo, |g.data|, p)], rx, log, n)
  {
  }

  lemma MoreMessages(q: RecvQ, got: map<nat, map<nat, nat>>, msgs: seq<seq<byte>>, msgs': seq<seq<byte>>)
    requires ActiveOk(q, got, msgs) && CqesOk(q, got, msgs) && msgs <= msgs'
    ensures ActiveOk(q, got, msgs') && CqesOk(q, got, msgs')
  {
  }

  lemma WrsAfter(e: Ep, a: Action)
    requires Wf(e) && Enabled(e, a) && QueueOk(e)
    ensures Do(e, a).sq.wrs == if a.PostSendWr? then e.sq.wrs + [a.wr] else e.sq.wrs
  {
    if !a.PostSendWr? && !a.ActivateWqe? && !a.SendNext? { SendsStay(e, a); }
  }

  lemma ReasmSender(x: Side, y: Side, a: Action)
    requires Wf(x.ep) && Enabled(x.ep, a) && QueueOk(x.ep) && ReasmInv(x, y)
    ensures ReasmInv(Advance(x, a), y)
  {
    WrsAfter(x.ep, a);
    GotStays(y.got, y.ep.rx, y.ep.rx, x.log, NewPending(x.ep, a), y.ep.rq.nextMsn, y.ep.rq.nextMsn);
    if a.PostSendWr? {
      SendsOfGrow(x.ep.sq.wrs, a.wr, |x.ep.sq.wrs|);
      MoreMessages(y.ep.rq, y.got, Messages(x.ep.sq.wrs), Messages(x.ep.sq.wrs + [a.wr]));
    }
  }

  /** process_send on a piece of a message that brings only new bytes. */
  lemma ProcessSendKeeps(q: RecvQ, got: map<nat, map<nat, nat>>, msgs: seq<seq<byte>>, g: Segment, p: nat, inOrder: bool)
    requires RecvOk(q, got, msgs) && (forall m :: m in got ==> m < q.nextMsn)
    requires PieceOf(g, msgs) && Fits(Refilled(q), g.msn, g.mo, g.last, g.data)
    requires forall b :: g.mo <= b < g.mo + |g.data| ==> b !in BytesOf(got, g.msn)
    ensures var q' := ProcessSend(q, g.msn, g.mo, g.last, g.data, inOrder);
            var got' := got[g.msn := BytesOf(got, g.msn) + Range(g.mo, |g.data|, p)];
            RecvOk(q', got', msgs) && q.nextMsn <= q'.nextMsn && g.msn < q'.nextMsn
  {
    var q1 := Refilled(q);
    RefilledOk(q, got, msgs);
    PlacedOk(q1, got, msgs, g, p);
    var k := Lookup(q1.active, g.msn);
    var q2 := q1.(active := q1.active[k := PlaceIn(q1.active[k], g.mo, g.last, g.data)]);
    PostCompleteOk(q2, got[g.msn := BytesOf(got, g.msn) + Range(g.mo, |g.data|, p)], msgs);
  }

  lemma OnlyNewBytes(x: Side, y: Side, p: nat)
    requires SegInv(x) && ReasmInv(x, y) && p < |x.log| && x.log[p].seg.SendSeg? && !Accepted(y.ep.rx, p)
    ensures var g := x.log[p].seg; forall b :: g.mo <= b < g.mo + |g.data| ==> b !in BytesOf(y.got, g.msn)
  {
    var g := x.log[p].seg;
    forall b | g.mo <= b < g.mo + |g.data| ensures b !in BytesOf(y.got, g.msn) {
      NewBytes(x, y.ep.rx, y.got, y.ep.rq.nextMsn, p, b);
    }
  }

  lemma PlacementKeeps(x: Side, y: Side, a: Action)
    requires CanStep(y, x, a) && Takes(y.ep, a) && a.d.seg.SendSeg? && Honest(x) && SegInv(x) && ReasmInv(x, y)
    requires Places(y.ep, a.d.seg)
    ensures ReasmInv(x, Advance(y, a))
  {
    var y', g, p := Advance(y, a), a.d.seg, a.d.psn;
    var msgs := Messages(x.ep.sq.wrs);
    RxAfter(y.ep, a);
    assert HonestDatagram(a.d, x.log, x.ep.rx);
    PieceOfMessage(x, p);
    OnlyNewBytes(x, y, p);
    ProcessSendKeeps(y.ep.rq, y.got, msgs, g, p, p < y'.ep.rx.ack);
    GotStays(y.got, y.ep.rx, y'.ep.rx, x.log, [], y.ep.rq.nextMsn, y'.ep.rq.nextMsn);
    assert x.log + [] == x.log;
    GotAdded(y.got, y'.ep.rx, x.log, y'.ep.rq.nextMsn, g, p);
  }

  lemma OtherReceiptKeeps(x: Side, y: Side, a: Action)
    requires CanStep(y, x, a) && a.Receive? && ReasmInv(x, y)
    requires !(Takes(y.ep, a) && Places(y.ep, a.d.seg))
    ensures ReasmInv(x, Advance(y, a))
  {
    RxAfter(y.ep, a);
    var msgs, y' := Messages(x.ep.sq.wrs), Advance(y, a);
    RefilledOk(y.ep.rq, y.got, msgs);
    assert y'.ep.rq == y.ep.rq || y'.ep.rq == Refilled(y.ep.rq);
    GotStays(y.got, y.ep.rx, y'.ep.rx, x.log, [], y.ep.rq.nextMsn, y'.ep.rq.nextMsn);
    assert x.log + [] == x.log;
  }

  lemma FlushRecvKeeps(x: Side, y: Side)
    requires CanStep(y, x, Shutdown) && ReasmInv(x, y)
    ensures ReasmInv(x, Advance(y, Shutdown))
  {
  }

  lemma LocalKeeps(x: Side, y: Side, a: Action)
    requires CanStep(y, x, a) && !a.Receive? && !a.Shutdown? && ReasmInv(x, y)
    ensures ReasmInv(x, Advance(y, a))
  {
  }

  lemma ReasmReceiver(x: Side, y: Side, a: Action)
    requires CanStep(y, x, a) && Honest(x) && SegInv(x) && ReasmInv(x, y)
    ensures ReasmInv(x, Advance(y, a))
  {
    if a.Receive? {
      if Takes(y.ep, a) && Places(y.ep, a.d.seg) {
        PlacementKeeps(x, y, a);
      } else {
        OtherReceiptKeeps(x, y, a);
      }
    } else if a.Shutdown? {
      FlushRecvKeeps(x, y);
    } else {
      LocalKeeps(x, y, a);
    }
  }
}
