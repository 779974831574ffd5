/** The responder's side of RDMA READ: a ring of slots indexed by MSN modulo the negotiated
    inbound read depth (IRD). */
module ReadQueue {
  import opened Iov
  import opened Ddp
  import opened Modular

  /** read_response_state: where the rest of the response goes, where it comes from and how
      many bytes are left. */
  datatype Slot = Slot(active: bool, stag: nat, to: nat, remaining: nat, vaddr: nat)

  const IDLE := Slot(false, 0, 0, 0, 0)

  datatype ReadQ = ReadQ(slots: seq<Slot>, headMsn: nat, expected: nat)

  function Idle(ird: nat): ReadQ {
    ReadQ(seq(ird, _ => IDLE), 1, 1)
  }

  function SlotOf(q: ReadQ, msn: nat): Slot
    requires |q.slots| > 0
  {
    q.slots[msn % |q.slots|]
  }

  /** The MSN is one the responder may still see: not below the expected one and at most an
      IRD beyond the first response that is not finished. */
  predicate InWindow(q: ReadQ, msn: nat) {
    q.expected <= msn < q.headMsn + |q.slots|
  }

  /** process_rdma_read_request: the new state and whether the request was taken up; a
      request outside the window or for a slot in use is refused. */
  function StoreRead(q: ReadQ, msn: nat, r: ReadInfo): (ReadQ, bool)
    requires |q.slots| > 0
  {
    if !InWindow(q, msn) then (q, false)
    else
      var q1 := if msn == q.expected then q.(expected := q.expected + 1) else q;
      if SlotOf(q, msn).active then (q1, false)
      else (q1.(slots := q.slots[msn % |q.slots| := Slot(true, r.sinkStag, r.sinkTo, r.size, r.srcTo)]), true)
  }

  function ResponseLength(s: Slot, mtu: nat): nat {
    Min(mtu, s.remaining)
  }

  function ResponseSegment(s: Slot, mtu: nat, data: seq<byte>): Segment {
    ReadResp(s.stag, s.to, s.remaining <= mtu, data)
  }

  /** After len bytes of the response at the head have gone out: the slot moves on, and when
      it is finished it is free and the next response is at the head. */
  function AdvanceHead(q: ReadQ, len: nat): ReadQ
    requires |q.slots| > 0 && len <= SlotOf(q, q.headMsn).remaining
  {
    var s := SlotOf(q, q.headMsn);
    var left := s.remaining - len;
    var s' := s.(active := left > 0, to := s.to + len, remaining := left, vaddr := s.vaddr + len);
    q.(slots := q.slots[q.headMsn % |q.slots| := s'],
       headMsn := if left == 0 then q.headMsn + 1 else q.headMsn)
  }

  // ---- respond_rdma_read on the slots, for any sizes ----

  function SlotAfter(s: Slot, len: nat): Slot
    requires len <= s.remaining
  {
    s.(to := s.to + len, remaining := s.remaining - len, vaddr := s.vaddr + len)
  }

  /** The inner loop: segments go out of a slot while it has bytes and there is credit. The slot
      afterwards, and the credit left. */
  function Drain(s: Slot, mtu: nat, credit: nat): (Slot, nat)
    requires mtu > 0
    decreases s.remaining
  {
    if s.remaining == 0 || credit == 0 then (s, credit)
    else Drain(SlotAfter(s, ResponseLength(s, mtu)), mtu, credit - 1)
  }

  /** A turn of the outer loop on a slot in use: it is drained, and if nothing is left of it, it is
      freed and the head moves on. The source does not ask whether it is the slot at the head. */
  function Turn(q: ReadQ, msn: nat, mtu: nat, credit: nat): (ReadQ, nat)
    requires |q.slots| > 0 && mtu > 0
  {
    var (s, left) := Drain(SlotOf(q, msn), mtu, credit);
    var done := s.remaining == 0;
    (q.(slots := q.slots[msn % |q.slots| := if done then s.(active := false) else s],
        headMsn := if done then q.headMsn + 1 else q.headMsn), left)
  }

  /** The outer loop, from one MSN to another: it stops at the first slot not in use. */
  function Pass(q: ReadQ, msn: nat, end: nat, mtu: nat, credit: nat): (ReadQ, nat)
    requires |q.slots| > 0 && mtu > 0
    decreases end - msn
  {
    if msn >= end || !SlotOf(q, msn).active then (q, credit)
    else
      var (q', left) := Turn(q, msn, mtu, credit);
      Pass(q', msn + 1, end, mtu, left)
  }

  function RespondPass(q: ReadQ, mtu: nat, credit: nat): (ReadQ, nat)
    requires |q.slots| > 0 && mtu > 0
  {
    Pass(q, q.headMsn, q.headMsn + |q.slots|, mtu, credit)
  }

  // ---- READs of no bytes ----

  lemma TurnFrame(q: ReadQ, msn: nat, mtu: nat, credit: nat, k: nat)
    requires |q.slots| > 0 && mtu > 0 && k % |q.slots| != msn % |q.slots|
    ensures var q' := Turn(q, msn, mtu, credit).0;
            && |q'.slots| == |q.slots| && SlotOf(q', k) == SlotOf(q, k) && q'.expected == q.expected
            && q.headMsn <= q'.headMsn <= q.headMsn + 1
  {
  }

  /** With the credit used up in the response at the head, a request taken up behind it makes its
      turn move the head off that response if and only if it asked for no bytes; if the request
      came in order, that is for good. */
  lemma TurnMovesHeadIffEmpty(q: ReadQ, m: nat, r: ReadInfo, mtu: nat)
    requires |q.slots| > 0 && mtu > 0 && q.headMsn < m < q.headMsn + |q.slots| && StoreRead(q, m, r).1
    requires SlotOf(q, q.headMsn).active && SlotOf(q, q.headMsn).remaining > 0
    ensures var q1 := StoreRead(q, m, r).0; var q2 := Turn(q1, m, mtu, 0).0;
            && SlotOf(q2, q.headMsn) == SlotOf(q, q.headMsn)
            && (q2.headMsn != q.headMsn <==> r.size == 0)
            && (m == q.expected ==> (Stuck(q2, q.headMsn, m) <==> r.size == 0))
  {
    DistinctSlots(q.headMsn, m, |q.slots|);
  }

  /** All slots from one MSN to another are in use. */
  ghost predicate InUse(q: ReadQ, from: nat, to: nat)
    requires |q.slots| > 0
  {
    forall k: nat {:trigger SlotOf(q, k)} :: from <= k <= to ==> SlotOf(q, k).active
  }

  /** A slot in use with no bytes, which the pass reaches. */
  ghost predicate EmptyIn(q: ReadQ, from: nat, end: nat, m: nat)
    requires |q.slots| > 0
  {
    from <= m < end && InUse(q, from, m) && SlotOf(q, m).remaining == 0
  }

  ghost predicate HasEmpty(q: ReadQ, from: nat, end: nat)
    requires |q.slots| > 0
  {
    exists m: nat :: EmptyIn(q, from, end, m)
  }

  lemma EmptyHereOrBehind(q: ReadQ, q1: ReadQ, at: nat, next: nat, end: nat)
    requires |q.slots| == |q1.slots| > 0 && at < end && next == at + 1 && SlotOf(q, at).active
    requires forall k: nat :: at < k < end ==> SlotOf(q1, k) == SlotOf(q, k)
    ensures HasEmpty(q, at, end) <==> SlotOf(q, at).remaining == 0 || HasEmpty(q1, next, end)
  {
    if SlotOf(q, at).remaining == 0 { assert EmptyIn(q, at, end, at); }
    if m: nat :| EmptyIn(q1, next, end, m) { assert EmptyIn(q, at, end, m); }
    if m: nat :| EmptyIn(q, at, end, m) { assert m == at || EmptyIn(q1, next, end, m); }
  }

  lemma TurnBehind(q: ReadQ, at: nat, end: nat, mtu: nat, q1: ReadQ)
    requires |q.slots| > 0 && mtu > 0 && at < end <= at + |q.slots| && q1 == Turn(q, at, mtu, 0).0
    ensures |q1.slots| == |q.slots| && forall k: nat :: at < k < end ==> SlotOf(q1, k) == SlotOf(q, k)
    ensures q1.headMsn == q.headMsn + if SlotOf(q, at).remaining == 0 then 1 else 0
  {
    forall k: nat | at < k < end ensures SlotOf(q1, k) == SlotOf(q, k) {
      DistinctSlots(at, k, |q.slots|);
      TurnFrame(q, at, mtu, 0, k);
    }
  }

  /** A whole pass without credit moves the head if and only if some slot that it reaches has no
      bytes. */
  lemma {:induction false} PassMovesHeadIffEmpty(q: ReadQ, at: nat, end: nat, mtu: nat)
    requires |q.slots| > 0 && mtu > 0 && at <= end <= at + |q.slots|
    ensures var q' := Pass(q, at, end, mtu, 0).0;
            q.headMsn <= q'.headMsn && (q.headMsn < q'.headMsn <==> HasEmpty(q, at, end))
    decreases end - at
  {
    if at < end && SlotOf(q, at).active {
      var q1 := Turn(q, at, mtu, 0).0;
      TurnBehind(q, at, end, mtu, q1);
      PassMovesHeadIffEmpty(q1, at + 1, end, mtu);
      EmptyHereOrBehind(q, q1, at, at + 1, end);
    } else if at < end {
      assert !SlotOf(q, at).active;
    }
  }

  /** The consequence of such a move: the unfinished response h lies behind the head, and the head
      cannot get past m, whose slot is free and whose request has been seen. */
  predicate Stuck(q: ReadQ, h: nat, m: nat) {
    && |q.slots| > 0 && h < q.headMsn <= m < h + |q.slots| && m < q.expected
    && SlotOf(q, h).active && SlotOf(q, h).remaining > 0 && !SlotOf(q, m).active
  }

  lemma StoreKeepsStuck(q: ReadQ, h: nat, m: nat, k: nat, r: ReadInfo)
    requires Stuck(q, h, m)
    ensures Stuck(StoreRead(q, k, r).0, h, m) && SlotOf(StoreRead(q, k, r).0, h) == SlotOf(q, h)
  {
    if InWindow(q, k) {
      DistinctSlots(m, k, |q.slots|);
    }
  }

  lemma {:induction false} PassKeepsStuck(q: ReadQ, at: nat, end: nat, mtu: nat, credit: nat, h: nat, m: nat)
    requires Stuck(q, h, m) && q.headMsn <= at <= m < end && mtu > 0
    ensures Stuck(Pass(q, at, end, mtu, credit).0, h, m) && SlotOf(Pass(q, at, end, mtu, credit).0, h) == SlotOf(q, h)
    decreases end - at
  {
    if SlotOf(q, at).active {
      var (q1, left) := Turn(q, at, mtu, credit);
      DistinctSlots(h, at, |q.slots|);
      DistinctSlots(at, m, |q.slots|);
      TurnFrame(q, at, mtu, credit, h);
      TurnFrame(q, at, mtu, credit, m);
      PassKeepsStuck(q1, at + 1, end, mtu, left, h, m);
    }
  }

  datatype Event = Request(msn: nat, req: ReadInfo) | Responding(credit: nat)

  /** The slots after any requests and passes. */
  function After(q: ReadQ, events: seq<Event>, mtu: nat): (r: ReadQ)
    requires |q.slots| > 0 && mtu > 0
    decreases |events|
  {
    if events == [] then q
    else
      var q' := match events[0]
                case Request(msn, req) => StoreRead(q, msn, req).0
                case Responding(credit) => RespondPass(q, mtu, credit).0;
      if |q'.slots| > 0 then After(q', events[1..], mtu) else q'
  }

  /** Whatever requests arrive and however much credit comes, the response is never taken up again,
      and the request that would reuse its slot, IRD later, finds the slot in use. */
  lemma {:induction false} StuckForGood(q: ReadQ, events: seq<Event>, mtu: nat, h: nat, m: nat, r: ReadInfo)
    requires Stuck(q, h, m) && mtu > 0
    ensures var q' := After(q, events, mtu);
            && Stuck(q', h, m) && SlotOf(q', h) == SlotOf(q, h)
            && !StoreRead(q', h + |q'.slots|, r).1
    decreases |events|
  {
    if events == [] {
      SameSlot(h, |q.slots|);
    } else {
      match events[0]
      case Request(k, req) =>
        StoreKeepsStuck(q, h, m, k, req);
        StuckForGood(StoreRead(q, k, req).0, events[1..], mtu, h, m, r);
      case Responding(credit) =>
        PassKeepsStuck(q, q.headMsn, q.headMsn + |q.slots|, mtu, credit, h, m);
        StuckForGood(RespondPass(q, mtu, credit).0, events[1..], mtu, h, m, r);
    }
  }

  /** It takes two requests to a fresh responder, the second for no bytes, and one pass without
      credit. */
  lemma EmptyReadSticks(r1: ReadInfo, r2: ReadInfo, mtu: nat)
    requires r1.size > 0 && r2.size == 0 && mtu > 0
    ensures var q := After(Idle(2), [Request(1, r1), Request(2, r2), Responding(0)], mtu); Stuck(q, 1, 2)
  {
    var events := [Request(1, r1), Request(2, r2), Responding(0)];
    var q1 := StoreRead(Idle(2), 1, r1).0;
    var q2 := StoreRead(q1, 2, r2).0;
    var q3 := Turn(q2, 1, mtu, 0).0;
    var q4 := Turn(q3, 2, mtu, 0).0;
    assert q3 == q2 && RespondPass(q2, mtu, 0).0 == Pass(q2, 2, 3, mtu, 0).0 == Pass(q4, 3, 3, mtu, 0).0 == q4;
    assert events[1..] == [Request(2, r2), Responding(0)] && events[1..][1..] == [Responding(0)];
    assert After(q4, [], mtu) == q4 && After(q2, [Responding(0)], mtu) == q4;
    assert After(q1, [Request(2, r2), Responding(0)], mtu) == q4;
  }
}
