/** Two endpoints and a network that may lose, duplicate, delay and reorder: whatever an
    endpoint has ever sent can be delivered to the other at any time, any number of times. */
module System {
  import opened Ddp
  import opened TrpReceive
  import opened RecvQueue
  import opened ReadQueue
  import opened Endpoint

  /** An endpoint with the history of the run that the invariants speak about:
      log     every datagram entered into the ring, by sequence number;
      out     every datagram put on the wire, in that order;
      taken   the sequence numbers handed to DDP, in that order;
      got     for each MSN the bytes placed, each with the sequence number that brought it;
      recvd   for each READ request received the sequence number that brought it;
      popped  the last-segment numbers popped from the heap;
      last    the sequence number of the last segment of each finished READ response;
      reqs    the READ requests sent, in MSN order. */
  datatype Side = Side(
    ep: Ep, log: seq<Pending>, out: seq<Datagram>, taken: seq<nat>,
    got: map<nat, map<nat, nat>>, recvd: map<nat, nat>,
    popped: seq<nat>, last: seq<nat>, reqs: seq<ReadInfo>)

  datatype Sys = Sys(left: Side, right: Side)

  function Swap(s: Sys): Sys {
    Sys(s.right, s.left)
  }

  /** The action hands a new segment to DDP. */
  predicate Takes(e: Ep, a: Action)
    requires Wf(e)
  {
    a.Receive? && a.d.Data? && RxStep(e.rx, a.d.psn).1
  }

  function BytesOf(got: map<nat, map<nat, nat>>, msn: nat): map<nat, nat> {
    if msn in got then got[msn] else map[]
  }

  function Range(mo: nat, len: nat, p: nat): (m: map<nat, nat>)
    ensures forall b :: b in m <==> mo <= b < mo + len
    ensures forall b :: b in m ==> m[b] == p
  {
    map b {:trigger Within(b, mo, mo + len)} | mo <= b < mo + len && Within(b, mo, mo + len) :: p
  }

  predicate Places(e: Ep, seg: Segment) {
    seg.SendSeg? && Fits(Refilled(e.rq), seg.msn, seg.mo, seg.last, seg.data)
  }

  function GotAfter(x: Side, a: Action): map<nat, map<nat, nat>>
    requires Wf(x.ep)
  {
    if Takes(x.ep, a) && Places(x.ep, a.d.seg) then
      var g := a.d.seg;
      x.got[g.msn := BytesOf(x.got, g.msn) + Range(g.mo, |g.data|, a.d.psn)]
    else x.got
  }

  function LastAfter(x: Side, a: Action): seq<nat>
    requires Wf(x.ep) && Enabled(x.ep, a)
  {
    if a.Respond? && SlotOf(x.ep.rr, x.ep.rr.headMsn).remaining == |a.data|
    then x.last + [Next(x.ep.tx)] else x.last
  }

  /** A step of one side. */
  function Advance(x: Side, a: Action): Side
    requires Wf(x.ep) && Enabled(x.ep, a)
  {
    Side(Do(x.ep, a),
         x.log + NewPending(x.ep, a),
         x.out + Sent(x.ep, a),
         if Takes(x.ep, a) then x.taken + [a.d.psn] else x.taken,
         GotAfter(x, a),
         if Takes(x.ep, a) && a.d.seg.ReadReq? then x.recvd[a.d.seg.msn := a.d.psn] else x.recvd,
         if a.PopRead? then x.popped + [MinOf(x.ep.sq.heap)] else x.popped,
         LastAfter(x, a),
         if a.RequestRead? then x.reqs + [x.ep.sq.wrs[a.w].op.req] else x.reqs)
  }

  predicate CanStep(x: Side, y: Side, a: Action) {
    Wf(x.ep) && Enabled(x.ep, a) && (a.Receive? ==> a.d in y.out)
  }

  predicate StepLeft(s: Sys, a: Action, s': Sys) {
    CanStep(s.left, s.right, a) && s' == Sys(Advance(s.left, a), s.right)
  }

  ghost predicate Moves(s: Sys, s': Sys) {
    exists a :: StepLeft(s, a, s') || StepLeft(Swap(s), a, Swap(s'))
  }

  function Fresh(cfg: Config): Side {
    Side(Start(cfg), [], [], [], map[], map[], [], [], [])
  }

  predicate CfgOk(c: Config) {
    c.size > 0 && c.mtu > 0 && c.irdMax > 0
  }

  /** A connection starts when the handshake has bounded each side's outbound read depth
      (ORD) by the other's IRD. */
  ghost predicate IsStart(s: Sys) {
    && s.left == Fresh(s.left.ep.cfg) && s.right == Fresh(s.right.ep.cfg)
    && CfgOk(s.left.ep.cfg) && CfgOk(s.right.ep.cfg)
    && s.left.ep.cfg.ordMax <= s.right.ep.cfg.irdMax
    && s.right.ep.cfg.ordMax <= s.left.ep.cfg.irdMax
  }

  /** The state at i is a start or follows from the one before. */
  ghost predicate Legal(r: seq<Sys>, i: nat)
    requires i < |r|
  {
    if i == 0 then IsStart(r[0]) else Moves(r[i - 1], r[i])
  }

  ghost predicate IsRun(r: seq<Sys>) {
    |r| > 0 && forall i {:trigger Legal(r, i)} :: 0 <= i < |r| ==> Legal(r, i)
  }
}
