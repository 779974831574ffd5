/** When process_send places a segment, and when a receive is complete, without looking into it: by the
    receives that were posted, the bytes that have arrived and the messages of the peer. */
module Placement {
  import opened Iov
  import opened Ddp
  import opened TrpReceive
  import opened RecvQueue
  import opened Endpoint
  import opened System
  import opened Segments
  import opened Transport
  import opened Reassembly
  import opened Invariant
  import opened Theorems
  import opened Example

  // ---- When a receive is complete ----

  lemma AllGotSize(got: map<nat, nat>, n: nat)
    requires AllGot(got, n) && forall b :: b in got ==> b < n
    ensures |got| == n
  {
    RangeSize(0, n, 0);
    assert got.Keys == Range(0, n, 0).Keys;
    assert |got.Keys| == |got| && |Range(0, n, 0).Keys| == |Range(0, n, 0)|;
  }

  ghost predicate HasMessage(msn: nat, got: map<nat, nat>, msgs: seq<seq<byte>>) {
    1 <= msn <= |msgs| && |msgs[msn - 1]| > 0 && AllGot(got, |msgs[msn - 1]|)
  }

  lemma CompleteWqe(r: Rwqe, got: map<nat, nat>, msgs: seq<seq<byte>>)
    requires WqeOk(r, got, msgs)
    ensures r.complete <==> HasMessage(r.msn, got, msgs)
  {
    if r.complete { CompleteHolds(r, got, msgs); }
    if HasMessage(r.msn, got, msgs) {
      var n := |msgs[r.msn - 1]|;
      assert n - 1 in got;
      AllGotSize(got, n);
    }
  }

  lemma OccursReasm(x: Side, y: Side)
    requires Occurs(x, y)
    ensures SegInv(x) && Honest(x) && ReasmInv(x, y)
  {
    OccursHolds(x, y);
  }

  /** In every run an active receive is complete if and only if every byte of its message has been
      placed, in whatever order the segments came. */
  lemma CompleteIff(x: Side, y: Side, k: nat)
    requires Occurs(x, y) && k < |y.ep.rq.active|
    ensures var r, msgs := y.ep.rq.active[k], Messages(x.ep.sq.wrs);
            r.complete <==> HasMessage(r.msn, BytesOf(y.got, r.msn), msgs)
  {
    OccursReasm(x, y);
    var r := y.ep.rq.active[k];
    CompleteWqe(r, BytesOf(y.got, r.msn), Messages(x.ep.sq.wrs));
  }

  // ---- When a segment is placed ----

  /** The MSNs that can be looked up: those of the active receives, and only when there are none also
      those of the posted ones. */
  predicate Reachable(q: RecvQ, m: nat) {
    |q.cqes| < m <= if q.active == [] then |q.posts| else |q.cqes| + |q.active|
  }

  lemma LookupIff(q: RecvQ, m: nat)
    requires Numbered(q) && InPostOrder(q)
    ensures var active := Refilled(q).active;
            && (Lookup(active, m) < |active| <==> Reachable(q, m))
            && (Reachable(q, m) ==> Lookup(active, m) == m - |q.cqes| - 1 && IsPost(active[m - |q.cqes| - 1], m - 1, q.posts))
  {
    var active := Refilled(q).active;
    forall k | 0 <= k < |active| ensures active[k].msn == |q.cqes| + 1 + k { }
    if Reachable(q, m) { assert active[m - |q.cqes| - 1].msn == m; }
  }

  lemma {:induction false} SameShapeSize(a: seq<seq<byte>>, b: seq<seq<byte>>, n: nat)
    requires SameShape(a, b) && n <= |a|
    ensures |FlatTo(a, n)| == |FlatTo(b, n)|
  {
    if n > 0 { SameShapeSize(a, b, n - 1); }
  }

  lemma InputIsOpen(r: Rwqe, got: map<nat, nat>, msgs: seq<seq<byte>>, g: Segment)
    requires WqeOk(r, got, msgs) && PieceOf(g, msgs) && r.msn == g.msn && g.last
    requires forall b :: g.mo <= b < g.mo + |g.data| ==> b !in got
    ensures r.inputSize == 0
  {
    var b := |msgs[g.msn - 1]| - 1;
    assert g.mo <= b < g.mo + |g.data|;
  }

  /** A last segment that is new finds the input size open. */
  lemma LastFindsOpen(x: Side, y: Side, p: nat, k: nat)
    requires SegInv(x) && ReasmInv(x, y) && p < |x.log| && x.log[p].seg.SendSeg? && !Accepted(y.ep.rx, p)
    requires x.log[p].seg.last && k < |Refilled(y.ep.rq).active| && Refilled(y.ep.rq).active[k].msn == x.log[p].seg.msn
    ensures Refilled(y.ep.rq).active[k].inputSize == 0
  {
    var g, msgs := x.log[p].seg, Messages(x.ep.sq.wrs);
    PieceOfMessage(x, p);
    OnlyNewBytes(x, y, p);
    RefilledOk(y.ep.rq, y.got, msgs);
    InputIsOpen(Refilled(y.ep.rq).active[k], BytesOf(y.got, g.msn), msgs, g);
  }

  /** In every run: a SEND segment that the transport hands up is placed if and only if its receive can
      be looked up and was posted with room for it. */
  lemma SendIsPlacedIff(x: Side, y: Side, d: Datagram)
    requires Occurs(x, y) && !y.ep.closed && d in x.out && d.Data? && d.seg.SendSeg?
    requires Wf(y.ep) && Takes(y.ep, Receive(d))
    ensures var q := y.ep.rq;
            Places(y.ep, d.seg) <==>
            Reachable(q, d.seg.msn) && d.seg.msn <= |q.posts| && d.seg.mo + |d.seg.data| <= |Flat(q.posts[d.seg.msn - 1])|
  {
    OccursReasm(x, y);
    PostOrder(x, y);
    assert HonestDatagram(d, x.log, x.ep.rx);
    RxAfter(y.ep, Receive(d));
    var q, g := y.ep.rq, d.seg;
    LookupIff(q, g.msn);
    var k := Lookup(Refilled(q).active, g.msn);
    if Reachable(q, g.msn) {
      var r := Refilled(q).active[k];
      SameShapeSize(r.bufs, q.posts[g.msn - 1], |r.bufs|);
      if g.last { LastFindsOpen(x, y, d.psn, k); }
    }
  }

  lemma PostOrder(x: Side, y: Side)
    requires Occurs(x, y)
    ensures InPostOrder(y.ep.rq)
  {
    var r: seq<Sys>, i, flip :| IsRun(r) && 0 <= i < |r| && Turned(r[i], flip) == Sys(x, y);
    RunKeepsPostOrder(r, i, !flip);
  }

  // ---- What is not touched ----

  /** Where nothing was placed, the receive still has the bytes it was posted with. */
  ghost predicate RestIs(r: Rwqe, post: seq<seq<byte>>, got: map<nat, nat>) {
    && |Flat(r.bufs)| == |Flat(post)|
    && forall b :: 0 <= b < |Flat(post)| && b !in got ==> Flat(r.bufs)[b] == Flat(post)[b]
  }

  ghost predicate RestKept(q: RecvQ, got: map<nat, map<nat, nat>>) {
    && InPostOrder(q)
    && (forall k {:trigger q.cqes[k]} :: 0 <= k < |q.cqes| ==>
          RestIs(q.cqes[k].wqe, q.posts[k], BytesOf(got, q.cqes[k].wqe.msn)))
    && (forall k {:trigger q.active[k]} :: 0 <= k < |q.active| ==>
          RestIs(q.active[k], q.posts[|q.cqes| + k], BytesOf(got, q.active[k].msn)))
    && (forall k {:trigger q.ring[k]} :: 0 <= k < |q.ring| ==> q.ring[k].bufs == q.posts[|q.cqes| + |q.active| + k])
  }

  lemma RestAfterPost(q: RecvQ, got: map<nat, map<nat, nat>>, bufs: seq<seq<byte>>)
    requires RestKept(q, got)
    ensures RestKept(PostRecv(q, bufs), got)
  {
    PostKeepsOrder(q, bufs);
  }

  lemma RestAfterDequeue(q: RecvQ, got: map<nat, map<nat, nat>>)
    requires RestKept(q, got)
    ensures RestKept(Dequeue(q), got)
  {
    DequeueKeepsOrder(q);
    var q' := Dequeue(q);
    forall k {:trigger q'.active[k]} | 0 <= k < |q'.active|
      ensures RestIs(q'.active[k], q'.posts[|q'.cqes| + k], BytesOf(got, q'.active[k].msn))
    {
      if k >= |q.active| { assert q'.active[k].bufs == q.ring[k - |q.active|].bufs; }
    }
  }

  lemma PlacedRest(r: Rwqe, post: seq<seq<byte>>, got: map<nat, nat>, mo: nat, last: bool, data: seq<byte>, p: nat)
    requires RestIs(r, post, got) && mo + |data| <= |Flat(r.bufs)|
    ensures RestIs(PlaceIn(r, mo, last, data), post, got + Range(mo, |data|, p))
  {
    ScatterIsSplice(r.bufs, data, mo);
    var r', got' := PlaceIn(r, mo, last, data), got + Range(mo, |data|, p);
    forall b | 0 <= b < |Flat(post)| && b !in got' ensures Flat(r'.bufs)[b] == Flat(post)[b] {
      SpliceAt(Flat(r.bufs), mo, data, b);
    }
  }

  lemma RestAfterPlace(q: RecvQ, got: map<nat, map<nat, nat>>, g: Segment, p: nat)
    requires RestKept(q, got) && Numbered(q) && g.SendSeg? && Fits(q, g.msn, g.mo, g.last, g.data)
    ensures var k := Lookup(q.active, g.msn);
            RestKept(q.(active := q.active[k := PlaceIn(q.active[k], g.mo, g.last, g.data)]),
                     got[g.msn := BytesOf(got, g.msn) + Range(g.mo, |g.data|, p)])
  {
    var k := Lookup(q.active, g.msn);
    PlaceKeepsOrder(q, k, g.mo, g.last, g.data);
    PlacedRest(q.active[k], q.posts[|q.cqes| + k], BytesOf(got, g.msn), g.mo, g.last, g.data, p);
    RestReplaced(q, got, k, PlaceIn(q.active[k], g.mo, g.last, g.data), BytesOf(got, g.msn) + Range(g.mo, |g.data|, p));
  }

  lemma RestReplaced(q: RecvQ, got: map<nat, map<nat, nat>>, k: nat, r: Rwqe, bytes: map<nat, nat>)
    requires RestKept(q, got) && Numbered(q) && k < |q.active| && r.msn == q.active[k].msn
    requires InPostOrder(q.(active := q.active[k := r])) && RestIs(r, q.posts[|q.cqes| + k], bytes)
    ensures RestKept(q.(active := q.active[k := r]), got[r.msn := bytes])
  {
    var q', got' := q.(active := q.active[k := r]), got[r.msn := bytes];
    forall m | m != r.msn ensures BytesOf(got', m) == BytesOf(got, m) { }
    forall i {:trigger q'.active[i]} | 0 <= i < |q'.active|
      ensures RestIs(q'.active[i], q'.posts[|q'.cqes| + i], BytesOf(got', q'.active[i].msn))
    {
      if i != k { assert q'.active[i] == q.active[i] && q.active[i].msn != r.msn; }
    }
    forall i {:trigger q'.cqes[i]} | 0 <= i < |q'.cqes|
      ensures RestIs(q'.cqes[i].wqe, q'.posts[i], BytesOf(got', q'.cqes[i].wqe.msn))
    {
      assert q.cqes[i].wqe.msn != r.msn;
    }
  }

  lemma {:induction false} RestAfterComplete(q: RecvQ, got: map<nat, map<nat, nat>>)
    requires RestKept(q, got)
    ensures RestKept(PostComplete(q), got)
    decreases |q.active|
  {
    if q.active != [] && q.active[0].complete {
      RestAfterOne(q, got);
      RestAfterComplete(q.(active := q.active[1..], cqes := q.cqes + [RecvCqe(q.active[0], true)]), got);
    }
  }

  lemma RestAfterOne(q: RecvQ, got: map<nat, map<nat, nat>>)
    requires RestKept(q, got) && q.active != []
    ensures RestKept(q.(active := q.active[1..], cqes := q.cqes + [RecvCqe(q.active[0], true)]), got)
  {
    var q' := q.(active := q.active[1..], cqes := q.cqes + [RecvCqe(q.active[0], true)]);
    forall k {:trigger q'.active[k]} | 0 <= k < |q'.active|
      ensures IsPost(q'.active[k], |q'.cqes| + k, q'.posts)
      ensures RestIs(q'.active[k], q'.posts[|q'.cqes| + k], BytesOf(got, q'.active[k].msn))
    {
      assert q'.active[k] == q.active[k + 1];
    }
  }

  lemma RestAfterFlush(q: RecvQ, got: map<nat, map<nat, nat>>)
    requires RestKept(q, got)
    ensures RestKept(FlushRecv(q), got)
  {
    RestAfterDequeue(q, got);
    FlushKeepsOrder(q);
    var q1, q' := Dequeue(q), FlushRecv(q);
    forall k {:trigger q'.cqes[k]} | 0 <= k < |q'.cqes|
      ensures RestIs(q'.cqes[k].wqe, q'.posts[k], BytesOf(got, q'.cqes[k].wqe.msn))
    {
      if k >= |q1.cqes| { assert q'.cqes[k].wqe == q1.active[k - |q1.cqes|]; } else { assert q'.cqes[k] == q1.cqes[k]; }
    }
  }

  lemma RefilledNumbers(q: RecvQ)
    requires Numbered(q)
    ensures Numbered(Refilled(q))
  {
  }

  lemma RestAfterSend(q: RecvQ, got: map<nat, map<nat, nat>>, g: Segment, p: nat, inOrder: bool)
    requires RestKept(q, got) && Numbered(q) && g.SendSeg?
    ensures var fits := Fits(Refilled(q), g.msn, g.mo, g.last, g.data);
            RestKept(ProcessSend(q, g.msn, g.mo, g.last, g.data, inOrder),
                     if fits then got[g.msn := BytesOf(got, g.msn) + Range(g.mo, |g.data|, p)] else got)
  {
    var q1 := Refilled(q);
    RestAfterDequeue(q, got);
    if Fits(q1, g.msn, g.mo, g.last, g.data) {
      RefilledNumbers(q);
      RestAfterPlace(q1, got, g, p);
      var k := Lookup(q1.active, g.msn);
      RestAfterComplete(q1.(active := q1.active[k := PlaceIn(q1.active[k], g.mo, g.last, g.data)]),
                        got[g.msn := BytesOf(got, g.msn) + Range(g.mo, |g.data|, p)]);
    }
  }

  lemma RestAfterReceipt(y: Side, d: Datagram)
    requires Wf(y.ep) && !y.ep.closed && RestKept(y.ep.rq, y.got) && Numbered(y.ep.rq)
    ensures RestKept(Advance(y, Receive(d)).ep.rq, Advance(y, Receive(d)).got)
  {
    if Takes(y.ep, Receive(d)) && d.seg.SendSeg? {
      RestAfterSend(y.ep.rq, y.got, d.seg, d.psn, d.psn < RxStep(y.ep.rx, d.psn).0.ack);
    }
  }

  lemma RestAfter(y: Side, a: Action)
    requires Wf(y.ep) && Enabled(y.ep, a) && RestKept(y.ep.rq, y.got) && Numbered(y.ep.rq)
    ensures RestKept(Advance(y, a).ep.rq, Advance(y, a).got)
  {
    match a
    case PostRecvWr(bufs) => RestAfterPost(y.ep.rq, y.got, bufs);
    case Receive(d) => RestAfterReceipt(y, d);
    case Shutdown => RestAfterFlush(y.ep.rq, y.got);
    case _ =>
  }

  lemma {:induction false} RunKeepsRest(r: seq<Sys>, i: nat, flip: bool)
    requires IsRun(r) && i < |r|
    ensures RestKept(Turned(r[i], flip).left.ep.rq, Turned(r[i], flip).left.got)
  {
    if i == 0 {
      assert Legal(r, 0);
    } else {
      RunKeepsRest(r, i - 1, flip);
      var a, mine := RunStep(r, i, flip);
      if mine {
        var s := Turned(r[i - 1], flip);
        OccursAt(r, i - 1, flip);
        OccursTurned(s.left, s.right);
        OccursReasm(s.right, s.left);
        RestAfter(s.left, a);
      }
    }
  }

  /** All receives completed so far were successes. */
  ghost predicate Successes(q: RecvQ) {
    forall k :: 0 <= k < |q.cqes| ==> q.cqes[k].ok
  }

  lemma {:induction false} CompleteSucceeds(q: RecvQ)
    requires Successes(q)
    ensures Successes(PostComplete(q))
    decreases |q.active|
  {
    if q.active != [] && q.active[0].complete {
      CompleteSucceeds(q.(active := q.active[1..], cqes := q.cqes + [RecvCqe(q.active[0], true)]));
    }
  }

  lemma SuccessAfter(e: Ep, a: Action)
    requires Wf(e) && Enabled(e, a) && Successes(e.rq) && !a.Shutdown?
    ensures Successes(Do(e, a).rq)
  {
    if Takes(e, a) && Places(e, a.d.seg) {
      var q, g := Refilled(e.rq), a.d.seg;
      var k := Lookup(q.active, g.msn);
      CompleteSucceeds(q.(active := q.active[k := PlaceIn(q.active[k], g.mo, g.last, g.data)]));
    }
  }

  lemma {:induction false} RunSucceeds(r: seq<Sys>, i: nat, flip: bool)
    requires IsRun(r) && i < |r| && !Turned(r[i], flip).left.ep.closed
    ensures Successes(Turned(r[i], flip).left.ep.rq)
  {
    if i == 0 {
      assert Legal(r, 0);
    } else {
      var a, mine := RunStep(r, i, flip);
      RunSucceeds(r, i - 1, flip);
      if mine { SuccessAfter(Turned(r[i - 1], flip).left.ep, a); }
    }
  }

  /** While the pair is open every receive that completed did so with success. */
  lemma OpenMeansSuccess(x: Side, y: Side, k: nat)
    requires Occurs(x, y) && !y.ep.closed && k < |y.ep.rq.cqes|
    ensures y.ep.rq.cqes[k].ok
  {
    var r: seq<Sys>, i, flip :| IsRun(r) && 0 <= i < |r| && Turned(r[i], flip) == Sys(x, y);
    RunSucceeds(r, i, !flip);
  }

  /** In every run: the k-th receive that completed, with success or not, has outside the bytes placed
      in it exactly what it was posted with; a success has nothing placed behind its message. */
  lemma NothingElseIsTouched(x: Side, y: Side, k: nat, b: nat)
    requires Occurs(x, y) && k < |y.ep.rq.cqes|
    ensures k < |y.ep.rq.posts| && |Flat(y.ep.rq.cqes[k].wqe.bufs)| == |Flat(y.ep.rq.posts[k])|
    ensures b < |Flat(y.ep.rq.posts[k])| && b !in BytesOf(y.got, k + 1) ==>
              Flat(y.ep.rq.cqes[k].wqe.bufs)[b] == Flat(y.ep.rq.posts[k])[b]
    ensures y.ep.rq.cqes[k].ok && b < |Flat(y.ep.rq.posts[k])| && y.ep.rq.cqes[k].wqe.inputSize <= b ==>
              Flat(y.ep.rq.cqes[k].wqe.bufs)[b] == Flat(y.ep.rq.posts[k])[b]
  {
    OccursReasm(x, y);
    var r: seq<Sys>, i, flip :| IsRun(r) && 0 <= i < |r| && Turned(r[i], flip) == Sys(x, y);
    RunKeepsRest(r, i, !flip);
    var got := BytesOf(y.got, k + 1);
    if y.ep.rq.cqes[k].ok && b in got {
      var p := got[b];
      assert BroughtBy(p, y.ep.rx, x.log, k + 1, b);
      PieceOfMessage(x, p);
    }
  }

  // ---- A receive that is posted and not found ----

  const BUF: seq<seq<byte>> := [[0, 0]]

  /** A receive is posted and half of its message arrives, another one is posted, and a segment of the
      second message arrives while the rest of the first is missing. It is not placed: a receive that is
      posted while another is active cannot be looked up before that one has completed. */
  lemma PostedReceiveIsMissed(mo: nat, last: bool, data: seq<byte>)
    requires mo + |data| <= 2
    ensures var q1 := ProcessSend(PostRecv(RECVQ_START, BUF), 1, 0, false, [7], true);
            var q2 := PostRecv(q1, BUF);
            && |q2.posts| == 2 && q2.cqes == [] && !Reachable(q2, 2)
            && ProcessSend(q2, 2, mo, last, data, false) == q2
  {
    var q0 := PostRecv(RECVQ_START, BUF);
    var r := Rwqe(0, BUF, 1, 0, 0, false);
    assert Dequeue(q0).active == [r];
    FlatOfOne([0, 0]);
    assert Fits(Dequeue(q0), 1, 0, false, [7]);
    var q1 := ProcessSend(q0, 1, 0, false, [7], true);
    assert q1.active == [PlaceIn(r, 0, false, [7])];
    var q2 := PostRecv(q1, BUF);
    assert Lookup(q2.active, 2) == 1;
  }
}
