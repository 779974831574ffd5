/** What goes on the wire over whole runs: how long the segments are, when an acknowledgement is due
    and what it says, and what the sender makes of it. */
module Wire {
  import opened Ddp
  import opened TrpReceive
  import opened Endpoint
  import opened System
  import opened Transport
  import opened Invariant
  import opened Theorems
  import opened SendQueue
  import opened Example

  // ---- Segment sizes ----

  ghost predicate AllCut(log: seq<Pending>, mtu: nat) {
    forall p :: 0 <= p < |log| ==> Cut(log[p].seg, mtu)
  }

  lemma NewIsCut(e: Ep, a: Action)
    requires Wf(e) && Enabled(e, a)
    ensures AllCut(NewPending(e, a), e.cfg.mtu)
  {
  }

  // ---- Acknowledgements ----

  /** Some datagram with this cumulative acknowledgement was sent. */
  ghost predicate Told(out: seq<Datagram>, ack: nat) {
    exists i :: 0 <= i < |out| && !out[i].Sack? && out[i].ack == ack
  }

  /** With nothing missing an acknowledgement is pending exactly as long as what has been accepted was
      not told; with something missing one is pending unless the interval was told. */
  ghost predicate AcksOk(out: seq<Datagram>, r: Rx) {
    && (!r.missing && r.ack > 0 ==> (r.update <==> !Told(out, r.ack)))
    && (r.missing && !r.update ==> Sack(r.lo, r.hi) in out)
    && (r.ack == 0 && !r.missing ==> !r.update)
  }

  lemma ToldGrows(out: seq<Datagram>, more: seq<Datagram>, ack: nat)
    ensures Told(out + more, ack) <==> Told(out, ack) || Told(more, ack)
  {
    var all := out + more;
    if i :| 0 <= i < |out| && !out[i].Sack? && out[i].ack == ack { assert all[i] == out[i]; }
    if i :| 0 <= i < |more| && !more[i].Sack? && more[i].ack == ack { assert all[|out| + i] == more[i]; }
  }

  /** An acknowledgement that was never reached was never told. */
  lemma NotToldAhead(x: Side, ack: nat)
    requires Honest(x) && x.ep.rx.ack < ack
    ensures !Told(x.out, ack)
  {
    forall i | 0 <= i < |x.out| && !x.out[i].Sack? ensures x.out[i].ack < ack {
      assert HonestDatagram(x.out[i], x.log, x.ep.rx);
    }
  }

  lemma SentTells(e: Ep, a: Action)
    requires Wf(e) && Enabled(e, a)
    ensures forall d :: d in Sent(e, a) ==> d.Sack? || d.ack == e.rx.ack
    ensures |Sent(e, a)| <= 1 && (Sent(e, a) != [] ==> !a.Receive?)
  {
  }

  lemma AcksAfterReceipt(x: Side, a: Action)
    requires Wf(x.ep) && Enabled(x.ep, a) && a.Receive? && Honest(x) && AcksOk(x.out, x.ep.rx)
    ensures AcksOk(Advance(x, a).out, Advance(x, a).ep.rx)
  {
    var x' := Advance(x, a);
    assert x'.out == x.out;
    if x.ep.rx.ack < x'.ep.rx.ack { NotToldAhead(x, x'.ep.rx.ack); }
  }

  lemma AcksAfterSend(x: Side, a: Action)
    requires Wf(x.ep) && Enabled(x.ep, a) && !a.Receive? && AcksOk(x.out, x.ep.rx)
    ensures AcksOk(Advance(x, a).out, Advance(x, a).ep.rx)
  {
    var more, ack := Sent(x.ep, a), x.ep.rx.ack;
    SentTells(x.ep, a);
    ToldGrows(x.out, more, ack);
    if more != [] && !more[0].Sack? { assert Told(more, ack); }
  }

  // ---- The sender ----

  /** The limit is a ring's length beyond the acknowledgement, less one from the first receipt on. */
  ghost predicate LimitOk(tx: Tx, size: nat) {
    tx.limit == tx.acked + size - 1 || (tx.acked == 0 && tx.limit == size)
  }

  /** What a datagram does to the sender: a SACK leaves the acknowledgement and the credit alone, and
      every other one sets both, be its segment new, a duplicate or absent. */
  lemma ReceiptSetsSender(e: Ep, d: Datagram)
    requires Wf(e)
    ensures var tx := Deliver(e, d).tx;
            && tx.head == e.tx.head && tx.pend == e.tx.pend
            && (d.Sack? ==> tx.acked == e.tx.acked && tx.limit == e.tx.limit && tx.swept == e.tx.swept)
            && (d.Sack? ==> forall p :: tx.head <= p < Next(tx) ==> (p in tx.quiet <==> p in e.tx.quiet || d.lo <= p < d.hi))
            && (!d.Sack? ==> tx.acked == d.ack && tx.limit == d.ack + e.cfg.size - 1 && !tx.swept && tx.quiet == e.tx.quiet)
  {
    if d.Sack? {
      forall p | e.tx.head <= p < Next(e.tx)
        ensures p in TakeSack(e.tx, d.lo, d.hi).quiet <==> p in e.tx.quiet || d.lo <= p < d.hi
      {
        assert Within(p, d.lo, d.hi) <==> d.lo <= p < d.hi;
      }
    }
  }

  lemma LimitAfter(x: Side, a: Action)
    requires Wf(x.ep) && Enabled(x.ep, a) && LimitOk(x.ep.tx, x.ep.cfg.size)
    ensures LimitOk(Do(x.ep, a).tx, Do(x.ep, a).cfg.size)
  {
    if a.Receive? { ReceiptSetsSender(x.ep, a.d); }
  }

  // ---- Over runs ----

  ghost predicate WireOk(x: Side) {
    AllCut(x.log, x.ep.cfg.mtu) && AcksOk(x.out, x.ep.rx) && LimitOk(x.ep.tx, x.ep.cfg.size)
  }

  /** The acknowledgement believed is one that the peer sent. */
  ghost predicate Believed(tx: Tx, out: seq<Datagram>) {
    tx.acked == 0 || Told(out, tx.acked)
  }

  lemma CutKept(x: Side, a: Action)
    requires Wf(x.ep) && Enabled(x.ep, a) && AllCut(x.log, x.ep.cfg.mtu)
    ensures AllCut(Advance(x, a).log, Advance(x, a).ep.cfg.mtu)
  {
    NewIsCut(x.ep, a);
  }

  lemma WireKept(x: Side, y: Side, a: Action)
    requires Occurs(x, y) && CanStep(x, y, a) && WireOk(x)
    ensures WireOk(Advance(x, a))
  {
    OccursWired(x, y);
    CutKept(x, a);
    LimitAfter(x, a);
    if a.Receive? { AcksAfterReceipt(x, a); } else { AcksAfterSend(x, a); }
  }

  lemma BelievedKept(x: Side, y: Side, a: Action)
    requires CanStep(x, y, a) && Believed(x.ep.tx, y.out)
    ensures Believed(Do(x.ep, a).tx, y.out)
  {
    if a.Receive? {
      ReceiptSetsSender(x.ep, a.d);
      var i :| 0 <= i < |y.out| && y.out[i] == a.d;
    }
  }

  lemma {:induction false} RunKeepsWire(r: seq<Sys>, i: nat, flip: bool)
    requires IsRun(r) && i < |r|
    ensures var s := Turned(r[i], flip); WireOk(s.left) && Believed(s.left.ep.tx, s.right.out)
  {
    if i == 0 {
      assert Legal(r, 0);
    } else {
      RunKeepsWire(r, i - 1, flip);
      var s := Turned(r[i - 1], flip);
      var a, mine := RunStep(r, i, flip);
      if mine {
        OccursAt(r, i - 1, flip);
        WireKept(s.left, s.right, a);
        BelievedKept(s.left, s.right, a);
      } else {
        ToldGrows(s.right.out, Sent(s.right.ep, a), s.left.ep.tx.acked);
      }
    }
  }

  lemma OccursWire(x: Side, y: Side)
    requires Occurs(x, y)
    ensures WireOk(x) && Believed(x.ep.tx, y.out)
  {
    var r: seq<Sys>, i, flip :| IsRun(r) && 0 <= i < |r| && Turned(r[i], flip) == Sys(x, y);
    RunKeepsWire(r, i, flip);
  }

  /** Segments are cut at the MTU: every data segment ever sent, of a send, a write or a READ response,
      has at most mtu bytes, and exactly as many unless it is flagged last. */
  lemma SegmentsFitMtu(x: Side, y: Side, p: nat)
    requires Occurs(x, y) && p < |x.log| && !x.log[p].seg.ReadReq?
    ensures |x.log[p].seg.data| <= x.ep.cfg.mtu
    ensures !x.log[p].seg.last ==> |x.log[p].seg.data| == x.ep.cfg.mtu
  {
    OccursWire(x, y);
  }

  /** An acknowledgement is pending exactly when there is news: with nothing missing, as long as no
      datagram has told how far everything has been accepted; with something missing, at least as long
      as the interval was not told. */
  lemma AckIsPendingIff(x: Side, y: Side)
    requires Occurs(x, y)
    ensures !x.ep.rx.missing && x.ep.rx.ack > 0 ==> (x.ep.rx.update <==> !Told(x.out, x.ep.rx.ack))
    ensures x.ep.rx.missing && !x.ep.rx.update ==> Sack(x.ep.rx.lo, x.ep.rx.hi) in x.out
  {
    OccursWire(x, y);
  }

  /** The credit limit in every run: it counts from an acknowledgement the peer has sent. */
  lemma CreditIsRingBeyondAck(x: Side, y: Side)
    requires Occurs(x, y)
    ensures x.ep.tx.limit == x.ep.tx.acked + x.ep.cfg.size - 1 || (x.ep.tx.acked == 0 && x.ep.tx.limit == x.ep.cfg.size)
    ensures x.ep.tx.acked > 0 ==> Told(y.out, x.ep.tx.acked)
  {
    OccursWire(x, y);
  }

  /** A datagram makes an acknowledgement due if and only if it is handed to DDP: a duplicate never does. */
  lemma DatagramArmsIff(e: Ep, d: Datagram)
    requires Wf(e) && !e.closed && !e.rx.update
    ensures Do(e, Receive(d)).rx.update <==> Takes(e, Receive(d))
  {
  }

  /** So an acknowledgement is told once: when everything y sent has been accepted and the pending one has
      gone out, nothing that y has sent makes x tell it again, however often it is repeated. */
  lemma LostAckIsNotRepeated(x: Side, y: Side, d: Datagram)
    requires Occurs(x, y) && !x.ep.closed && d in y.out
    requires x.ep.rx.ack == |y.log| && !x.ep.rx.missing && !x.ep.rx.update
    ensures CanStep(x, y, Receive(d)) && Do(x.ep, Receive(d)).rx == x.ep.rx
    ensures !Enabled(Do(x.ep, Receive(d)), EmitAck) && !Enabled(Do(x.ep, Receive(d)), EmitSack)
  {
    OccursWired(x, y);
    assert HonestDatagram(d, y.log, y.ep.rx);
  }

  /** A run that comes to such a state: y has taken the one message of x and acknowledged it once. As
      long as that datagram is lost the send of x waits, whatever x repeats. */
  lemma SenderIsLeftWaiting() returns (x: Side, y: Side)
    ensures Occurs(y, x) && !y.ep.closed && y.ep.rx.ack == |x.log| == 1 && !y.ep.rx.missing && !y.ep.rx.update
    ensures x.ep.sq.active == [0] && x.ep.sq.wqs == [Wq(Wait, 1, 2, 0)] && x.ep.sq.cqes == []
  {
    Begins();
    y := Fresh(CFG);
    x := Posts(y);
    x := Sends(x, y);
    y := Receives(x, y);
    OccursWired(x, y);
    OccursTurned(x, y);
    OccursNext(y, x, EmitAck);
    y := Advance(y, EmitAck);
  }
}
