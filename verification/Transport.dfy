/** What every step keeps of the transport: window and ring, honest acknowledgements,
    exactly-once acceptance and no loss. */
module Transport {
  import opened Ddp
  import opened TrpReceive
  import opened Endpoint
  import opened System

  /** The ring holds exactly the datagrams from head to the next one to send, never more
      than its size; the credit limit is at most a ring's length past the acknowledgement,
      and after a sweep the acknowledgement is not ahead of the ring. */
  ghost predicate TxOk(tx: Tx, log: seq<Pending>, size: nat) {
    && |log| == Next(tx)
    && (forall k :: 0 <= k < |tx.pend| ==> tx.pend[k] == log[tx.head + k])
    && |tx.pend| <= size
    && tx.limit <= tx.acked + size
    && (tx.swept ==> tx.acked <= tx.head)
  }

  ghost predicate HonestDatagram(d: Datagram, log: seq<Pending>, rx: Rx) {
    match d
    case Data(p, a, g) => p < |log| && g == log[p].seg && a <= rx.ack
    case Ack(_, a) => a <= rx.ack
    case Sack(lo, hi) => lo < hi && forall p :: lo <= p < hi ==> Accepted(rx, p)
  }

  /** Whatever was ever sent carries the segment that was entered under its number, and
      acknowledges only what has been accepted. */
  ghost predicate Honest(x: Side) {
    forall d :: d in x.out ==> HonestDatagram(d, x.log, x.ep.rx)
  }

  /** The peer's receive state never runs ahead of what was sent. */
  ghost predicate Heard(log: seq<Pending>, rx: Rx) {
    RxOk(rx) && Top(rx) <= |log| && rx.ack <= |log|
  }

  /** The sender believes and gives up only what the peer has accepted. */
  ghost predicate Link(tx: Tx, rx: Rx) {
    && tx.acked <= rx.ack && tx.head <= rx.ack
    && forall p :: p in tx.quiet ==> Accepted(rx, p)
  }

  /** The numbers handed to DDP are distinct, and are exactly the accepted ones. */
  ghost predicate Once(taken: seq<nat>, rx: Rx) {
    && (forall i, j :: 0 <= i < j < |taken| ==> taken[i] != taken[j])
    && (forall p :: p in taken <==> Accepted(rx, p))
  }

  ghost predicate RxGrows(r: Rx, r': Rx) {
    r.ack <= r'.ack && forall q :: Accepted(r, q) ==> Accepted(r', q)
  }

  /** What an action does to the receive state. */
  lemma RxAfter(e: Ep, a: Action)
    requires Wf(e) && Enabled(e, a)
    ensures RxOk(Do(e, a).rx) && RxGrows(e.rx, Do(e, a).rx)
    ensures forall q :: Accepted(Do(e, a).rx, q) <==> Accepted(e.rx, q) || (Takes(e, a) && q == a.d.psn)
    ensures Takes(e, a) ==> !Accepted(e.rx, a.d.psn)
    ensures Top(Do(e, a).rx) <= if Takes(e, a) && Top(e.rx) <= a.d.psn then a.d.psn + 1 else Top(e.rx)
  {
  }

  lemma AckBelowTop(r: Rx)
    requires RxOk(r)
    ensures r.ack <= Top(r)
  {
  }

  /** The transmit state and the log after an action that sends nothing new and is not a
      receipt, a freeing or the end of a sweep. */
  lemma TxUnchanged(e: Ep, a: Action)
    requires Wf(e) && Enabled(e, a)
    requires !a.Receive? && !a.FreeAcked? && !a.EndSweep? && !a.SendNext? && !a.RequestRead? && !a.Respond?
    ensures Do(e, a).tx == e.tx && NewPending(e, a) == []
  {
  }

  lemma TxAfterSend(e: Ep, a: Action)
    requires Wf(e) && Enabled(e, a)
    requires a.SendNext? || a.RequestRead? || a.Respond?
    ensures HasCredit(e) && |NewPending(e, a)| == 1
    ensures Do(e, a).tx == e.tx.(pend := e.tx.pend + NewPending(e, a))
  {
  }

  /** A send that passed the credit check finds room in the ring. */
  lemma RingAfterSend(x: Side, a: Action, rx: Rx)
    requires Wf(x.ep) && Enabled(x.ep, a) && (a.SendNext? || a.RequestRead? || a.Respond?)
    requires TxOk(x.ep.tx, x.log, x.ep.cfg.size) && Heard(x.log, rx) && Link(x.ep.tx, rx)
    ensures |x.ep.tx.pend| < x.ep.cfg.size
    ensures var x' := Advance(x, a);
            TxOk(x'.ep.tx, x'.log, x'.ep.cfg.size) && Heard(x'.log, rx) && Link(x'.ep.tx, rx)
  {
    TxAfterSend(x.ep, a);
    assert Advance(x, a).log == x.log + NewPending(x.ep, a);
  }

  lemma RingAfterReceipt(x: Side, a: Action, rx: Rx, log: seq<Pending>)
    requires Wf(x.ep) && Enabled(x.ep, a) && a.Receive? && HonestDatagram(a.d, log, rx)
    requires TxOk(x.ep.tx, x.log, x.ep.cfg.size) && Heard(x.log, rx) && Link(x.ep.tx, rx)
    ensures var x' := Advance(x, a);
            TxOk(x'.ep.tx, x'.log, x'.ep.cfg.size) && Heard(x'.log, rx) && Link(x'.ep.tx, rx)
  {
    assert NewPending(x.ep, a) == [];
  }

  lemma RingAfterFree(x: Side, rx: Rx)
    requires Wf(x.ep) && Enabled(x.ep, FreeAcked)
    requires TxOk(x.ep.tx, x.log, x.ep.cfg.size) && Heard(x.log, rx) && Link(x.ep.tx, rx)
    ensures var x' := Advance(x, FreeAcked);
            TxOk(x'.ep.tx, x'.log, x'.ep.cfg.size) && Heard(x'.log, rx) && Link(x'.ep.tx, rx)
  {
  }

  lemma SenderKeepsRing(x: Side, y: Side, a: Action)
    requires CanStep(x, y, a)
    requires TxOk(x.ep.tx, x.log, x.ep.cfg.size) && Heard(x.log, y.ep.rx) && Link(x.ep.tx, y.ep.rx)
    requires Honest(y)
    ensures var x' := Advance(x, a);
            TxOk(x'.ep.tx, x'.log, x'.ep.cfg.size) && Heard(x'.log, y.ep.rx) && Link(x'.ep.tx, y.ep.rx)
  {
    if a.SendNext? || a.RequestRead? || a.Respond? {
      RingAfterSend(x, a, y.ep.rx);
    } else if a.Receive? {
      RingAfterReceipt(x, a, y.ep.rx, y.log);
    } else if a.FreeAcked? {
      RingAfterFree(x, y.ep.rx);
    } else {
      if !a.EndSweep? { TxUnchanged(x.ep, a); }
      assert Advance(x, a).log == x.log;
    }
  }

  lemma ReceiverKeepsLink(x: Side, y: Side, a: Action)
    requires CanStep(y, x, a)
    requires Heard(x.log, y.ep.rx) && Link(x.ep.tx, y.ep.rx) && Honest(x)
    ensures Heard(x.log, Advance(y, a).ep.rx) && Link(x.ep.tx, Advance(y, a).ep.rx)
  {
    RxAfter(y.ep, a);
    if Takes(y.ep, a) { assert HonestDatagram(a.d, x.log, x.ep.rx); }
    AckBelowTop(Advance(y, a).ep.rx);
  }

  lemma StaysHonest(x: Side, y: Side, a: Action)
    requires CanStep(x, y, a) && Honest(x) && TxOk(x.ep.tx, x.log, x.ep.cfg.size)
    ensures Honest(Advance(x, a))
  {
    var x' := Advance(x, a);
    RxAfter(x.ep, a);
    forall d | d in x'.out ensures HonestDatagram(d, x'.log, x'.ep.rx) {
      if d in x.out {
        assert HonestDatagram(d, x.log, x.ep.rx);
      } else {
        assert d in Sent(x.ep, a);
      }
    }
  }

  lemma StaysOnce(x: Side, y: Side, a: Action)
    requires CanStep(x, y, a) && Once(x.taken, x.ep.rx)
    ensures Once(Advance(x, a).taken, Advance(x, a).ep.rx)
  {
    RxAfter(x.ep, a);
  }
}
