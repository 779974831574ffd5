/** The invariant of the two-endpoint system, and that every run keeps it. */
module Invariant {
  import opened Endpoint
  import opened System
  import opened Transport
  import opened Accounting
  import opened Segments
  import opened Reassembly
  import opened ReadRequester
  import opened ReadResponder
  import opened ReadCompletion

  /** Of one side: its transport state ... */
  ghost predicate Wired(x: Side) {
    Wf(x.ep) && TxOk(x.ep.tx, x.log, x.ep.cfg.size) && Honest(x) && Once(x.taken, x.ep.rx)
  }

  /** ... and its work queues. */
  ghost predicate Queued(x: Side) {
    QueueOk(x.ep) && SegInv(x) && ReqInv(x)
  }

  /** Of the traffic from x to y: acknowledgements ... */
  ghost predicate Linked(x: Side, y: Side) {
    && Heard(x.log, y.ep.rx) && Link(x.ep.tx, y.ep.rx)
    && x.ep.cfg.ordMax <= y.ep.cfg.irdMax
  }

  /** ... and the messages and READs it carries. */
  ghost predicate Carried(x: Side, y: Side) {
    ReasmInv(x, y) && RespInv(x, y) && PopInv(x, y)
  }

  ghost predicate Half(x: Side, y: Side) {
    Wired(x) && Queued(x) && Linked(x, y) && Carried(x, y)
  }

  function Turned(s: Sys, flip: bool): Sys {
    if flip then Swap(s) else s
  }

  /** Either way round. */
  ghost predicate Inv(s: Sys) {
    forall flip {:trigger Turned(s, flip)} :: Half(Turned(s, flip).left, Turned(s, flip).right)
  }

  lemma BothHalves(s: Sys)
    requires Inv(s)
    ensures Half(s.left, s.right) && Half(s.right, s.left)
  {
    assert Turned(s, false) == s && Turned(s, true) == Swap(s);
  }

  ghost predicate Starting(x: Side) {
    x == Fresh(x.ep.cfg) && CfgOk(x.ep.cfg)
  }

  lemma StartSide(x: Side, y: Side)
    requires Starting(x) && Starting(y) && x.ep.cfg.ordMax <= y.ep.cfg.irdMax
    ensures Half(x, y)
  {
    StartWire(x, y);
    StartQueues(x);
    StartTraffic(x, y);
  }

  lemma StartWire(x: Side, y: Side)
    requires Starting(x) && Starting(y) && x.ep.cfg.ordMax <= y.ep.cfg.irdMax
    ensures Wired(x) && Linked(x, y)
  {
  }

  lemma StartQueues(x: Side)
    requires Starting(x)
    ensures Queued(x)
  {
    StartSegs(x);
    StartReqs(x);
  }

  lemma StartSegs(x: Side)
    requires Starting(x)
    ensures QueueOk(x.ep) && SegInv(x)
  {
  }

  lemma StartReqs(x: Side)
    requires Starting(x)
    ensures ReqInv(x)
  {
  }

  lemma StartTraffic(x: Side, y: Side)
    requires Starting(x) && Starting(y)
    ensures Carried(x, y)
  {
  }

  // ---- One step ----

  lemma WfKeeps(e: Ep, a: Action)
    requires Wf(e) && Enabled(e, a) && QueueOk(Do(e, a))
    ensures Wf(Do(e, a)) && Do(e, a).cfg == e.cfg
  {
    RxAfter(e, a);
  }

  lemma WiredKeeps(x: Side, y: Side, a: Action)
    requires CanStep(x, y, a) && Wired(x) && Honest(y) && Linked(x, y) && QueueOk(Do(x.ep, a))
    ensures Wired(Advance(x, a))
  {
    WfKeeps(x.ep, a);
    SenderKeepsRing(x, y, a);
    StaysHonest(x, y, a);
    StaysOnce(x, y, a);
  }

  lemma RingKnown(x: Side)
    requires Wired(x) && SegInv(x)
    ensures RingOwned(x.ep)
  {
    forall k | 0 <= k < |x.ep.tx.pend| ensures x.ep.tx.pend[k] in x.log {
      assert x.ep.tx.pend[k] == x.log[x.ep.tx.head + k];
    }
    RingIsOwned(x);
  }

  lemma QueuedKeeps(x: Side, y: Side, a: Action)
    requires CanStep(x, y, a) && Wired(x) && Queued(x) && (a.PopRead? ==> |x.popped| < |x.reqs|)
    ensures QueueOk(Do(x.ep, a)) && Queued(Advance(x, a))
  {
    RingKnown(x);
    QueueKeeps(x.ep, a);
    SegsKeep(x, a);
    ReqKeeps(x, a);
  }

  /** A step of x, seen by the traffic from x to y. */
  lemma SenderKeeps(x: Side, y: Side, a: Action)
    requires CanStep(x, y, a) && Wired(x) && Queued(x) && Linked(x, y) && Carried(x, y) && Wired(y) && Queued(y)
    ensures Carried(Advance(x, a), y)
    ensures a.PopRead? ==> |x.popped| < |x.reqs|
  {
    ReasmSender(x, y, a);
    RequesterKeepsResponder(x, y, a);
    RequesterKeepsPops(x, y, a);
  }

  lemma SenderKeepsLinked(x: Side, y: Side, a: Action)
    requires CanStep(x, y, a) && Wired(x) && Linked(x, y) && Honest(y) && QueueOk(Do(x.ep, a))
    ensures Linked(Advance(x, a), y)
  {
    WfKeeps(x.ep, a);
    SenderKeepsRing(x, y, a);
  }

  /** A step of y, seen by the traffic from x to y. */
  lemma ReceiverKeeps(x: Side, y: Side, a: Action)
    requires CanStep(y, x, a) && Wired(x) && Queued(x) && Wired(y) && Linked(y, x) && Linked(x, y) && Carried(x, y)
    ensures Carried(x, Advance(y, a))
  {
    assert |x.reqs| <= |y.last| + y.ep.cfg.irdMax;
    ReasmReceiver(x, y, a);
    ResponderKeeps(x, y, a);
    ResponderKeepsPops(x, y, a);
  }

  lemma ReceiverKeepsLinked(x: Side, y: Side, a: Action)
    requires CanStep(y, x, a) && Wired(x) && Linked(x, y) && QueueOk(Do(y.ep, a))
    ensures Linked(x, Advance(y, a))
  {
    WfKeeps(y.ep, a);
    ReceiverKeepsLink(x, y, a);
  }

  lemma StepKeeps(s: Sys, a: Action, s': Sys)
    requires Half(s.left, s.right) && Half(s.right, s.left) && StepLeft(s, a, s')
    ensures Half(s'.left, s'.right) && Half(s'.right, s'.left)
  {
    var x, y := s.left, s.right;
    SenderKeeps(x, y, a);
    QueuedKeeps(x, y, a);
    WiredKeeps(x, y, a);
    SenderKeepsLinked(x, y, a);
    ReceiverKeeps(y, x, a);
    ReceiverKeepsLinked(y, x, a);
  }

  lemma MoveKeeps(s: Sys, s': Sys)
    requires Inv(s) && Moves(s, s')
    ensures Inv(s')
  {
    BothHalves(s);
    var a :| StepLeft(s, a, s') || StepLeft(Swap(s), a, Swap(s'));
    if StepLeft(s, a, s') {
      StepKeeps(s, a, s');
    } else {
      StepKeeps(Swap(s), a, Swap(s'));
    }
  }

  lemma StartHolds(s: Sys)
    requires IsStart(s)
    ensures Inv(s)
  {
    forall flip ensures Half(Turned(s, flip).left, Turned(s, flip).right) {
      StartSide(Turned(s, flip).left, Turned(s, flip).right);
    }
  }

  /** Every state of every run satisfies the invariant. */
  lemma {:induction false} RunKeeps(r: seq<Sys>, i: nat)
    requires IsRun(r) && i < |r|
    ensures Inv(r[i])
  {
    assert Legal(r, i);
    if i == 0 {
      StartHolds(r[0]);
    } else {
      RunKeeps(r, i - 1);
      MoveKeeps(r[i - 1], r[i]);
    }
  }
}
