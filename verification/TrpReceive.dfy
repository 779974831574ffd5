/** The receive half of the reliable transport (TRP), on unbounded packet sequence numbers:
    a cumulative acknowledgement and at most one out-of-order interval. */
module TrpReceive {

  /** ack is recv_ack_psn, missing is trp_recv_missing, [lo, hi) is recv_sack_psn and update
      is trp_ack_update. */
  datatype Rx = Rx(ack: nat, missing: bool, lo: nat, hi: nat, update: bool)

  const RX_START := Rx(0, false, 0, 0, false)

  predicate RxOk(r: Rx) {
    r.missing ==> r.ack < r.lo < r.hi
  }

  /** Datagram p has been handed to DDP. */
  predicate Accepted(r: Rx, p: nat) {
    p < r.ack || (r.missing && r.lo <= p < r.hi)
  }

  /** One more than the highest sequence number accepted. */
  function Top(r: Rx): nat {
    if r.missing then r.hi else r.ack
  }

  /** What process_data_packet does with the sequence number p of a data datagram: the new
      state, and whether the segment goes on to DDP. A datagram is taken exactly when it is
      new and can be tracked, it is then recorded, and nothing else changes. */
  function RxStep(r: Rx, p: nat): (res: (Rx, bool))
    requires RxOk(r)
    ensures RxOk(res.0)
    ensures res.1 <==> !Accepted(r, p) && (p == r.ack || !r.missing || p == r.hi || p + 1 == r.lo)
    ensures forall q :: Accepted(res.0, q) <==> Accepted(r, q) || (res.1 && q == p)
    ensures r.ack <= res.0.ack
    ensures if res.1 then res.0.update else res.0 == r
    ensures Top(res.0) == if res.1 && Top(r) <= p then p + 1 else Top(r)
  {
    if p == r.ack then
      if r.missing && r.ack + 1 == r.lo then
        (r.(ack := r.hi, missing := false, update := true), true)
      else
        (r.(ack := r.ack + 1, update := true), true)
    else if r.ack < p then
      if r.missing then
        if p == r.hi then
          (r.(hi := p + 1, update := true), true)
        else if p + 1 == r.lo then
          (r.(lo := p, update := true), true)
        else
          (r, false)
      else
        (r.(missing := true, lo := p, hi := p + 1, update := true), true)
    else
      (r, false)
  }
}
