/** One message on its own: cut at the MTU, its segments put together again in any order. */
module Segmentation {
  import opened Iov
  import opened Ddp
  import opened SendQueue
  import opened Endpoint

  /** The segments that repeated turns of do_rdmap_send cut from a message, however many turns fit
      into one call. */
  function SegmentsFrom(wr: Wr, wq: Wq, mtu: nat): seq<Segment>
    requires mtu > 0 && wq.sent <= Total(wr)
    decreases Total(wr) - wq.sent
  {
    if wq.sent == Total(wr) then []
    else
      var seg := NextSegment(wr, wq, mtu);
      [seg] + SegmentsFrom(wr, wq.(sent := wq.sent + DdpLength(seg)), mtu)
  }

  predicate Covers(g: Segment, b: nat) {
    g.SendSeg? && g.mo <= b < g.mo + |g.data|
  }

  /** The segment is a piece of the message, and it is marked last if it reaches the end. */
  predicate PieceOf(g: Segment, msn: nat, msg: seq<byte>) {
    && g.SendSeg? && g.msn == msn && 0 < |g.data| && g.mo + |g.data| <= |msg|
    && g.data == msg[g.mo..g.mo + |g.data|] && (g.last <==> g.mo + |g.data| == |msg|)
  }

  lemma {:induction false} CutPieces(wr: Wr, wq: Wq, mtu: nat)
    requires wr.op.OpSend? && mtu > 0 && wq.sent <= Total(wr)
    ensures Pieces(SegmentsFrom(wr, wq, mtu), wq.msn, Flat(wr.iov))
    decreases Total(wr) - wq.sent
  {
    if wq.sent < Total(wr) {
      var seg := NextSegment(wr, wq, mtu);
      assert PieceOf(seg, wq.msn, Flat(wr.iov));
      CutPieces(wr, wq.(sent := wq.sent + DdpLength(seg)), mtu);
    }
  }

  /** Each of them is as long as the MTU allows: mtu bytes, or what is left. */
  lemma {:induction false} CutSizes(wr: Wr, wq: Wq, mtu: nat)
    requires mtu > 0 && wq.sent <= Total(wr)
    ensures forall i :: 0 <= i < |SegmentsFrom(wr, wq, mtu)| ==> Cut(SegmentsFrom(wr, wq, mtu)[i], mtu)
    decreases Total(wr) - wq.sent
  {
    if wq.sent < Total(wr) {
      CutSizes(wr, wq.(sent := wq.sent + DdpLength(NextSegment(wr, wq, mtu))), mtu);
    }
  }

  /** The segments follow one another from the given offset without gap or overlap, the final one
      ends at the end, and only that one is marked last. */
  ghost predicate Tiles(segs: seq<Segment>, at: nat, end: nat) {
    if segs == [] then at == end
    else segs[0].SendSeg? && segs[0].mo == at && (segs[0].last <==> |segs| == 1) && Tiles(segs[1..], at + |segs[0].data|, end)
  }

  lemma {:induction false} CutTiles(wr: Wr, wq: Wq, mtu: nat)
    requires wr.op.OpSend? && mtu > 0 && wq.sent <= Total(wr)
    ensures Tiles(SegmentsFrom(wr, wq, mtu), wq.sent, Total(wr))
    decreases Total(wr) - wq.sent
  {
    if wq.sent < Total(wr) {
      var seg := NextSegment(wr, wq, mtu);
      var wq' := wq.(sent := wq.sent + DdpLength(seg));
      CutTiles(wr, wq', mtu);
      assert SegmentsFrom(wr, wq, mtu)[1..] == SegmentsFrom(wr, wq', mtu);
    }
  }

  lemma {:induction false} CutCovers(wr: Wr, wq: Wq, mtu: nat, b: nat)
    requires wr.op.OpSend? && mtu > 0 && wq.sent <= b < Total(wr)
    ensures Covered(SegmentsFrom(wr, wq, mtu), b)
    decreases Total(wr) - wq.sent
  {
    var seg := NextSegment(wr, wq, mtu);
    var segs := SegmentsFrom(wr, wq, mtu);
    assert segs[0] == seg;
    CoveredTail(segs, b);
    if !Covers(seg, b) {
      var wq' := wq.(sent := wq.sent + DdpLength(seg));
      CutCovers(wr, wq', mtu, b);
      assert segs[1..] == SegmentsFrom(wr, wq', mtu);
    }
  }

  /** The scatter list after the segments were placed, one after the other. */
  function PlaceAll(bufs: seq<seq<byte>>, segs: seq<Segment>): seq<seq<byte>>
    decreases |segs|
  {
    if segs == [] then bufs
    else PlaceAll(if segs[0].SendSeg? then Scatter(bufs, segs[0].data, segs[0].mo) else bufs, segs[1..])
  }

  lemma {:induction false} SameSizes(a: seq<seq<byte>>, b: seq<seq<byte>>, n: nat)
    requires n <= |a| == |b| && forall i :: 0 <= i < |a| ==> |a[i]| == |b[i]|
    ensures |FlatTo(a, n)| == |FlatTo(b, n)|
  {
    if n > 0 {
      SameSizes(a, b, n - 1);
    }
  }

  lemma {:induction false} PlaceAllSize(bufs: seq<seq<byte>>, segs: seq<Segment>)
    ensures |Flat(PlaceAll(bufs, segs))| == |Flat(bufs)|
    decreases |segs|
  {
    if segs != [] {
      var bufs' := if segs[0].SendSeg? then Scatter(bufs, segs[0].data, segs[0].mo) else bufs;
      SameSizes(bufs, bufs', |bufs|);
      PlaceAllSize(bufs', segs[1..]);
    }
  }

  ghost predicate Pieces(segs: seq<Segment>, msn: nat, msg: seq<byte>) {
    forall i :: 0 <= i < |segs| ==> PieceOf(segs[i], msn, msg)
  }

  ghost predicate Covered(segs: seq<Segment>, b: nat) {
    exists i :: 0 <= i < |segs| && Covers(segs[i], b)
  }

  lemma CoveredTail(segs: seq<Segment>, b: nat)
    requires segs != []
    ensures Covered(segs, b) <==> Covers(segs[0], b) || Covered(segs[1..], b)
  {
  }

  /** After any sequence of pieces of one message, repeated ones included, every byte that some
      piece covers is the message's, and the others are as they were. */
  lemma {:induction false} PlaceAllAt(bufs: seq<seq<byte>>, segs: seq<Segment>, msn: nat, msg: seq<byte>, b: nat)
    requires |msg| <= |Flat(bufs)| && b < |Flat(bufs)| && Pieces(segs, msn, msg)
    ensures Covered(segs, b) ==> b < |msg|
    ensures |Flat(PlaceAll(bufs, segs))| == |Flat(bufs)|
    ensures Flat(PlaceAll(bufs, segs))[b] == if Covered(segs, b) then msg[b] else Flat(bufs)[b]
    decreases |segs|
  {
    if segs != [] {
      var g := segs[0];
      var bufs' := Scatter(bufs, g.data, g.mo);
      assert PieceOf(g, msn, msg);
      ScatterIsSplice(bufs, g.data, g.mo);
      SpliceAt(Flat(bufs), g.mo, g.data, b);
      CoveredTail(segs, b);
      PlaceAllAt(bufs', segs[1..], msn, msg, b);
    }
  }

  /** The same segments in another order cover the same bytes. */
  lemma Permuted(cut: seq<Segment>, segs: seq<Segment>, msn: nat, msg: seq<byte>, b: nat)
    requires multiset(segs) == multiset(cut) && Pieces(cut, msn, msg)
    ensures Pieces(segs, msn, msg) && (Covered(cut, b) ==> Covered(segs, b))
  {
    forall i | 0 <= i < |segs| ensures PieceOf(segs[i], msn, msg) {
      assert segs[i] in multiset(cut);
    }
    if i :| 0 <= i < |cut| && Covers(cut[i], b) {
      assert cut[i] in multiset(segs);
      var j :| 0 <= j < |segs| && segs[j] == cut[i];
    }
  }

  lemma ByteReproduced(wr: Wr, wq: Wq, mtu: nat, segs: seq<Segment>, bufs: seq<seq<byte>>, b: nat)
    requires wr.op.OpSend? && mtu > 0 && wq.sent == 0 && b < |Flat(bufs)| && Total(wr) <= |Flat(bufs)|
    requires multiset(segs) == multiset(SegmentsFrom(wr, wq, mtu))
    ensures |Flat(PlaceAll(bufs, segs))| == |Flat(bufs)|
    ensures Flat(PlaceAll(bufs, segs))[b] == if b < Total(wr) then Flat(wr.iov)[b] else Flat(bufs)[b]
  {
    var cut := SegmentsFrom(wr, wq, mtu);
    CutPieces(wr, wq, mtu);
    Permuted(cut, segs, wq.msn, Flat(wr.iov), b);
    PlaceAllAt(bufs, segs, wq.msn, Flat(wr.iov), b);
    if b < Total(wr) {
      CutCovers(wr, wq, mtu, b);
    }
  }

  /** Whatever order the segments of a message arrive in, the scatter list ends with the message in
      front and everything behind it untouched. */
  lemma AnyOrderReproduces(wr: Wr, msn: nat, mtu: nat, segs: seq<Segment>, bufs: seq<seq<byte>>)
    requires wr.op.OpSend? && mtu > 0 && Total(wr) <= |Flat(bufs)|
    requires multiset(segs) == multiset(SegmentsFrom(wr, WQ_START.(msn := msn), mtu))
    ensures Flat(PlaceAll(bufs, segs)) == Flat(wr.iov) + Flat(bufs)[Total(wr)..]
  {
    PlaceAllSize(bufs, segs);
    var flat, want := Flat(PlaceAll(bufs, segs)), Flat(wr.iov) + Flat(bufs)[Total(wr)..];
    forall b | 0 <= b < |Flat(bufs)| ensures flat[b] == want[b] {
      ByteReproduced(wr, WQ_START.(msn := msn), mtu, segs, bufs, b);
    }
    assert flat == want;
  }
}
