/** The transport state as it is stored: 32-bit sequence numbers, flags, and a retransmit ring
    indexed by sequence number. It does what the unbounded machine does as long as the
    numbers that meet are less than 2^31 apart. */
module EeState {
  import opened Modular
  import opened Bits
  import opened Serial
  import opened Ddp
  import opened TrpReceive
  import opened Endpoint

  // ---- Receiving ----

  /** The receive fields of ee_state. */
  datatype Rx32 = Rx32(ack: u32, missing: bool, lo: u32, hi: u32, update: bool)

  function WrapRx(r: Rx): Rx32 {
    Rx32(Wrap(r.ack), r.missing, Wrap(r.lo), Wrap(r.hi), r.update)
  }

  /** The 32-bit receive machine. */
  function Rx32Step(r: Rx32, p: u32): (Rx32, bool) {
    if p == r.ack then
      var ack := Add32(r.ack, 1);
      if r.missing && ack == r.lo then (r.(ack := r.hi, missing := false, update := true), true)
      else (r.(ack := ack, update := true), true)
    else if SerialLess(r.ack, p) then
      if r.missing then
        if p == r.hi then (r.(hi := Add32(p, 1), update := true), true)
        else if Add32(p, 1) == r.lo then (r.(lo := p, update := true), true)
        else (r, false)
      else (r.(missing := true, lo := p, hi := Add32(p, 1), update := true), true)
    else (r, false)
  }

  /** The numbers that process_data_packet compares are near each other. */
  predicate RxNear(r: Rx, p: nat) {
    Near(r.ack, p) && (r.missing ==> Near(r.ack + 1, r.lo) && Near(p + 1, r.lo) && Near(p, r.hi))
  }

  /** Within the window the 32-bit machine simulates the unbounded one: the same datagrams are
      accepted and the same state results. */
  lemma Rx32Simulates(r: Rx, p: nat)
    requires RxOk(r) && RxNear(r, p)
    ensures Rx32Step(WrapRx(r), Wrap(p)) == (WrapRx(RxStep(r, p).0), RxStep(r, p).1)
  {
    SerialAgrees(r.ack, p);
    WrapAdd(r.ack, 1);
    WrapAdd(p, 1);
    if r.missing {
      SerialAgrees(r.ack + 1, r.lo);
      SerialAgrees(p, r.hi);
      SerialAgrees(p + 1, r.lo);
    }
  }

  predicate Congruent(a: nat, b: nat) {
    a % MODULUS == b % MODULUS
  }

  /** p is ahead of a on the circle of numbers, by less than half of it. */
  predicate Ahead(a: nat, p: nat) {
    0 < (p - a) % MODULUS < HALF
  }

  /** The 32-bit machine sees the number that is expected next, or one ahead of it that it can track. */
  predicate LooksNew(r: Rx, p: nat) {
    Congruent(p, r.ack) || (Ahead(r.ack, p) && (r.missing ==> Congruent(p, r.hi) || Congruent(p + 1, r.lo)))
  }

  /** For every state and every number, however far apart, that is exactly when it takes a datagram. */
  lemma Rx32TakesIff(r: Rx, p: nat)
    ensures Rx32Step(WrapRx(r), Wrap(p)).1 <==> LooksNew(r, p)
  {
    SerialIsCircularDistance(r.ack, p);
    WrapAdd(p, 1);
  }

  /** A duplicate, which the unbounded machine always refuses, is taken if and only if it lies a
      whole number of circles behind, or more than half a circle beyond such a number, and when
      something is missing continues the tracked interval on the circle. At half a circle exactly,
      and again between one circle and one and a half, it is refused. */
  lemma DuplicateTakenIff(r: Rx, p: nat)
    requires RxOk(r) && p < r.ack
    ensures !RxStep(r, p).1
    ensures Rx32Step(WrapRx(r), Wrap(p)).1 <==>
              || (r.ack - p) % MODULUS == 0
              || ((r.ack - p) % MODULUS > HALF && (r.missing ==> Congruent(p, r.hi) || Congruent(p + 1, r.lo)))
  {
    Rx32TakesIff(r, p);
    Opposite(r.ack, p);
  }

  /** An input: number 0 comes again when 2^31 + 1 is expected. */
  lemma OldDuplicateIsTaken()
    ensures var r := Rx(HALF + 1, false, 0, 0, false); !RxStep(r, 0).1 && Rx32Step(WrapRx(r), Wrap(0)).1
  {
  }

  lemma Opposite(a: nat, p: nat)
    requires p < a
    ensures Congruent(p, a) <==> (a - p) % MODULUS == 0
    ensures Ahead(a, p) <==> (a - p) % MODULUS > HALF
  {
    var q, d := (a - p) / MODULUS, (a - p) % MODULUS;
    assert a - p == q * MODULUS + d;
    if d == 0 {
      ModUnique(p - a, -q, 0);
      ModUnique(a, p / MODULUS + q, p % MODULUS);
    } else {
      ModUnique(p - a, -q - 1, MODULUS - d);
      if Congruent(p, a) {
        ModUnique(a - p, a / MODULUS - p / MODULUS, 0);
        assert false;
      }
    }
  }

  /** The two machines are in the same case of process_data_packet. */
  predicate SameCase(r: Rx, p: nat) {
    if p == r.ack then
      r.missing ==> (Congruent(r.ack + 1, r.lo) <==> r.ack + 1 == r.lo)
    else if r.ack < p && (!r.missing || p == r.hi) then
      Ahead(r.ack, p)
    else if r.ack < p && p + 1 == r.lo then
      Ahead(r.ack, p) && !Congruent(p, r.hi)
    else
      !LooksNew(r, p)
  }

  /** For every state and every number, the 32-bit step is the unbounded one, in verdict and
      resulting state, if and only if they are. */
  lemma Rx32AgreesIff(r: Rx, p: nat)
    requires RxOk(r)
    ensures Rx32Step(WrapRx(r), Wrap(p)) == (WrapRx(RxStep(r, p).0), RxStep(r, p).1) <==> SameCase(r, p)
  {
    Rx32TakesIff(r, p);
    SerialIsCircularDistance(r.ack, p);
    WrapAdd(r.ack, 1);
    WrapAdd(p, 1);
  }

  // ---- The retransmit ring ----

  /** pending_datagram_info: its number, what it carries, and whether next_retransmit is at
      infinity. */
  datatype Entry = Entry(psn: u32, item: Pending, quiet: bool)

  datatype TxSlot = Empty | Full(entry: Entry)

  /** tx_pending_entry: the position of a sequence number. */
  function IndexOf(psn: u32, size: nat): (i: nat)
    requires size > 0
    ensures i < size
  {
    And(psn as int, size - 1)
  }

  /** For a ring whose size is a power of two that is the remainder of the unbounded number. */
  lemma IndexIsMod(n: nat, size: nat, j: nat)
    requires size == Pow2(j) && j <= 32
    ensures IndexOf(Wrap(n), size) == n % size
  {
    Pow2At32();
    MaskIsMod(n % MODULUS, j);
    ModOfMod(n, j, 32);
  }

  /** What the position of number n holds, for n in a window of one ring's length. */
  function SlotFor(tx: Tx, n: nat): TxSlot
    requires tx.head <= n
  {
    if n < Next(tx) then Full(Entry(Wrap(n), tx.pend[n - tx.head], n in tx.quiet)) else Empty
  }

  /** The occupied positions hold exactly the datagrams from head to the next one to send. */
  ghost predicate RingRep(slots: seq<TxSlot>, at: nat, tx: Tx) {
    && 0 < |slots| && |tx.pend| <= |slots| && at == tx.head % |slots|
    && (forall n {:trigger SlotFor(tx, n)} :: tx.head <= n < tx.head + |slots| ==> slots[n % |slots|] == SlotFor(tx, n))
    && (forall p :: p in tx.quiet ==> p < Next(tx))
  }

  function Pushed(tx: Tx, d: Pending): Tx {
    tx.(pend := tx.pend + [d])
  }

  /** The target position of a send is empty exactly when the ring is not full. */
  lemma TargetIsEmptyIffRoom(slots: seq<TxSlot>, at: nat, tx: Tx)
    requires RingRep(slots, at, tx)
    ensures slots[Next(tx) % |slots|].Empty? <==> |tx.pend| < |slots|
  {
    if |tx.pend| < |slots| {
      assert SlotFor(tx, Next(tx)).Empty?;
    } else {
      SameSlot(tx.head, |slots|);
      assert SlotFor(tx, tx.head).Full?;
    }
  }

  lemma PushKeepsRing(slots: seq<TxSlot>, at: nat, tx: Tx, d: Pending)
    requires RingRep(slots, at, tx) && |tx.pend| < |slots|
    ensures RingRep(slots[Next(tx) % |slots| := Full(Entry(Wrap(Next(tx)), d, false))], at, Pushed(tx, d))
  {
    var n, size, tx' := Next(tx), |slots|, Pushed(tx, d);
    var slots' := slots[n % size := Full(Entry(Wrap(n), d, false))];
    forall m | tx'.head <= m < tx'.head + size ensures slots'[m % size] == SlotFor(tx', m) {
      assert slots[m % size] == SlotFor(tx, m);
      if m < n { DistinctSlots(m, n, size); }
      if n < m { DistinctSlots(n, m, size); }
    }
  }

  lemma PopKeepsRing(slots: seq<TxSlot>, at: nat, tx: Tx)
    requires RingRep(slots, at, tx) && tx.pend != []
    ensures slots[at] == Full(Entry(Wrap(tx.head), tx.pend[0], tx.head in tx.quiet))
    ensures RingRep(slots[at := Empty], if at + 1 == |slots| then 0 else at + 1, Popped(tx))
  {
    var size, tx' := |slots|, Popped(tx);
    assert slots[at] == SlotFor(tx, tx.head);
    NextSlot(tx.head, size);
    forall m | tx'.head <= m < tx'.head + size ensures slots[at := Empty][m % size] == SlotFor(tx', m) {
      if m == tx.head + size {
        SameSlot(tx.head, size);
      } else {
        assert slots[m % size] == SlotFor(tx, m);
        DistinctSlots(tx.head, m, size);
      }
    }
  }

  /** maybe_sack_pending: the datagram is not retransmitted any more if the range covers it. */
  function MaybeSack(e: Entry, lo: u32, hi: u32): Entry {
    if (lo == e.psn || SerialLess(lo, e.psn)) && SerialLess(e.psn, hi) then e.(quiet := true) else e
  }

  lemma MaybeSackAgrees(n: nat, item: Pending, quiet: bool, lo: nat, hi: nat)
    requires Near(lo, n) && Near(n, hi)
    ensures MaybeSack(Entry(Wrap(n), item, quiet), Wrap(lo), Wrap(hi)) ==
            Entry(Wrap(n), item, quiet || lo <= n < hi)
  {
    SerialAgrees(lo, n);
    SerialAgrees(n, hi);
  }

  lemma MarkKeepsRing(slots: seq<TxSlot>, at: nat, tx: Tx, n: nat, hit: bool)
    requires RingRep(slots, at, tx) && tx.head <= n < Next(tx)
    ensures slots[n % |slots|] == Full(Entry(Wrap(n), tx.pend[n - tx.head], n in tx.quiet))
    ensures RingRep(slots[n % |slots| := Full(Entry(Wrap(n), tx.pend[n - tx.head], n in tx.quiet || hit))], at,
                    tx.(quiet := tx.quiet + if hit then {n} else {}))
  {
    var size, tx' := |slots|, tx.(quiet := tx.quiet + if hit then {n} else {});
    var slots' := slots[n % size := Full(Entry(Wrap(n), tx.pend[n - tx.head], n in tx.quiet || hit))];
    assert slots[n % size] == SlotFor(tx, n);
    forall m | tx'.head <= m < tx'.head + size ensures slots'[m % size] == SlotFor(tx', m) {
      assert slots[m % size] == SlotFor(tx, m);
      if m < n { DistinctSlots(m, n, size); }
      if n < m { DistinctSlots(n, m, size); }
    }
  }

  /** The ring after the datagrams below n were held against the range. */
  function SackedTo(tx: Tx, lo: nat, hi: nat, n: nat): Tx {
    tx.(quiet := tx.quiet + (set p {:trigger Within(p, lo, hi)} | tx.head <= p < n && Within(p, lo, hi)))
  }

  /** After a SACK exactly the datagrams in its range, and those marked before, are marked. */
  lemma SackMarks(slots: seq<TxSlot>, at: nat, tx: Tx, lo: nat, hi: nat)
    requires RingRep(slots, at, TakeSack(tx, lo, hi))
    ensures forall n :: tx.head <= n < Next(tx) ==>
              slots[n % |slots|] == Full(Entry(Wrap(n), tx.pend[n - tx.head], n in tx.quiet || lo <= n < hi))
  {
    var tx' := TakeSack(tx, lo, hi);
    forall n | tx.head <= n < Next(tx)
      ensures slots[n % |slots|] == Full(Entry(Wrap(n), tx.pend[n - tx.head], n in tx.quiet || lo <= n < hi))
    {
      assert slots[n % |slots|] == SlotFor(tx', n);
      assert Within(n, lo, hi) <==> lo <= n < hi;
    }
  }

  lemma SackedNext(tx: Tx, lo: nat, hi: nat, n: nat)
    requires tx.head <= n
    ensures SackedTo(tx, lo, hi, n + 1) ==
            SackedTo(tx, lo, hi, n).(quiet := SackedTo(tx, lo, hi, n).quiet + if lo <= n < hi then {n} else {})
  {
    var a, b := SackedTo(tx, lo, hi, n + 1).quiet, SackedTo(tx, lo, hi, n).quiet + if lo <= n < hi then {n} else {};
    forall p: nat ensures p in a <==> p in b {
      assert Within(p, lo, hi) <==> lo <= p < hi;
    }
    assert a == b;
  }

  /** Every number in the ring is near both ends of the range. */
  ghost predicate SackNear(tx: Tx, lo: nat, hi: nat) {
    forall n :: tx.head <= n < Next(tx) ==> Near(lo, n) && Near(n, hi)
  }

  lemma SweptStep(tx: Tx, freed: seq<Pending>)
    ensures tx.pend != [] && tx.head < tx.acked ==>
              Swept(tx) == Swept(Popped(tx)) && (freed + [tx.pend[0]]) + Popped(tx).pend == freed + tx.pend
    ensures tx.pend == [] || tx.acked <= tx.head ==> Swept(tx) == tx
  {
  }

  /** Every number in the ring is near the acknowledged one, and the next one near the limit. */
  ghost predicate TxNear(tx: Tx) {
    (forall n :: tx.head <= n < Next(tx) ==> Near(n, tx.acked)) && Near(Next(tx), tx.limit)
  }

  /** The walk round the ring has come to the end exactly if it is back at the head or the slot
      is empty. */
  lemma WalkEnds(slots: seq<TxSlot>, at: nat, tx: Tx, n: nat)
    requires RingRep(slots, at, tx) && tx.head < n <= Next(tx)
    ensures n == Next(tx) <==> n % |slots| == at || slots[n % |slots|].Empty?
  {
    if n < tx.head + |slots| {
      DistinctSlots(tx.head, n, |slots|);
      assert slots[n % |slots|] == SlotFor(tx, n);
    } else {
      SameSlot(tx.head, |slots|);
    }
  }

  class EeState {
    var sendLastAcked: u32
    var sendNext: u32
    var sendMax: u32

    var recvAck: u32
    var recvMissing: bool
    var ackUpdate: bool
    var sackMin: u32
    var sackMax: u32

    const txPending: array<TxSlot>
    var txHead: nat

    /** start_qp, for a ring of the given size. */
    constructor (size: nat)
      requires 0 < size < 0x1_0000_0000
      ensures fresh(txPending) && txPending.Length == size
      ensures RxFields() == WrapRx(RX_START)
      ensures TxRep(Tx(0, [], 0, size, false, {}))
    {
      sendLastAcked, sendNext, sendMax := 0, 0, size as u32;
      recvAck, recvMissing, ackUpdate, sackMin, sackMax := 0, false, false, 0, 0;
      txPending := new TxSlot[size](_ => Empty);
      txHead := 0;
    }

    function RxFields(): Rx32
      reads this
    {
      Rx32(recvAck, recvMissing, sackMin, sackMax, ackUpdate)
    }

    /** The transmit fields and the ring stand for tx. */
    ghost predicate TxRep(tx: Tx)
      reads this, txPending
    {
      && sendLastAcked == Wrap(tx.acked) && sendNext == Wrap(Next(tx)) && sendMax == Wrap(tx.limit)
      && RingRep(txPending[..], txHead, tx)
    }

    /** The size of the ring is a power of two, as the mask assumes. */
    ghost predicate Sized()
    {
      exists j: nat :: j <= 32 && txPending.Length == Pow2(j)
    }

    /** The sequence-number part of process_data_packet. */
    method ReceivePsn(psn: u32) returns (ok: bool)
      modifies this`recvAck, this`recvMissing, this`ackUpdate, this`sackMin, this`sackMax
      ensures (RxFields(), ok) == Rx32Step(old(RxFields()), psn)
    {
      ok := true;
      if psn == recvAck {
        recvAck := Add32(recvAck, 1);
        if recvMissing && recvAck == sackMin {
          recvAck := sackMax;
          recvMissing := false;
        }
        ackUpdate := true;
      } else if SerialLess(recvAck, psn) {
        if recvMissing {
          if psn == sackMax {
            sackMax := Add32(psn, 1);
            ackUpdate := true;
          } else if Add32(psn, 1) == sackMin {
            // The source also asks here whether the range now starts at recvAck; it cannot,
            // because psn is not recvAck.
            sackMin := psn;
            ackUpdate := true;
          } else if SerialLess(psn, sackMin) || SerialGreater(psn, sackMax) {
            ok := false; // no way to track this one
          } else {
            ok := false; // a duplicate
          }
        } else {
          recvMissing := true;
          ackUpdate := true;
          sackMin := psn;
          sackMax := Add32(psn, 1);
        }
      } else {
        ok := false; // a retransmission of what is acknowledged
      }
    }

    /** The sender state after a datagram that acknowledges up to ack. */
    method ReceiveAck(ack: u32, ghost tx: Tx, ghost a: nat)
      requires txPending.Length > 0
      modifies this`sendLastAcked, this`sendMax
      ensures old(TxRep(tx)) && ack == Wrap(a) ==> TxRep(TakeAck(tx, a, txPending.Length))
    {
      sendLastAcked := ack;
      sendMax := Add32(ack, txPending.Length - 1);
      WrapAdd(a, txPending.Length - 1);
      ghost var tx' := TakeAck(tx, a, txPending.Length);
      assert forall n :: tx.head <= n ==> SlotFor(tx', n) == SlotFor(tx, n);
    }

    /** The walk of process_trp_sack over the ring, with maybe_sack_pending on each datagram. */
    method ReceiveSack(lo: u32, hi: u32, ghost tx: Tx, ghost l: nat, ghost h: nat)
      requires txPending.Length > 0 && TxRep(tx) && lo == Wrap(l) && hi == Wrap(h) && SackNear(tx, l, h)
      modifies txPending
      ensures TxRep(TakeSack(tx, l, h))
      ensures forall n :: tx.head <= n < Next(tx) ==>
        txPending[n % txPending.Length] == Full(Entry(Wrap(n), tx.pend[n - tx.head], n in tx.quiet || l <= n < h))
    {
      HeadShows(tx);
      assert SackedTo(tx, l, h, tx.head) == tx;
      ghost var n := tx.head;
      var at := txHead;
      var more := txPending[at].Full?;
      while more
        invariant at < txPending.Length && tx.head <= n <= Next(tx) && at == n % txPending.Length
        invariant TxRep(SackedTo(tx, l, h, n)) && |tx.pend| <= txPending.Length
        invariant if more then n < Next(tx) else n == Next(tx)
        decreases Next(tx) - n, more
      {
        at := SackSlot(lo, hi, at, tx, l, h, n);
        n := n + 1;
        more := at != txHead && txPending[at].Full?;
        WalkEnds(txPending[..], txHead, SackedTo(tx, l, h, n), n);
      }
      SackMarks(txPending[..], txHead, tx, l, h);
    }

    /** One turn of it. */
    method SackSlot(lo: u32, hi: u32, at: nat, ghost tx: Tx, ghost l: nat, ghost h: nat, ghost n: nat) returns (next: nat)
      requires at < txPending.Length && tx.head <= n < Next(tx) && at == n % txPending.Length
      requires TxRep(SackedTo(tx, l, h, n)) && lo == Wrap(l) && hi == Wrap(h) && Near(l, n) && Near(n, h)
      modifies txPending
      ensures TxRep(SackedTo(tx, l, h, n + 1)) && next < txPending.Length && next == (n + 1) % txPending.Length
    {
      ghost var slots, cur := txPending[..], SackedTo(tx, l, h, n);
      MarkKeepsRing(slots, txHead, cur, n, l <= n < h);
      MaybeSackAgrees(n, cur.pend[n - cur.head], n in cur.quiet, l, h);
      SackedNext(tx, l, h, n);
      NextSlot(n, txPending.Length);
      var e := MaybeSack(txPending[at].entry, lo, hi);
      txPending[at] := Full(e);
      assert txPending[..] == slots[at := Full(e)];
      next := if at + 1 == txPending.Length then 0 else at + 1;
    }

    /** The credit check before a send. */
    method CreditLeft(ghost tx: Tx) returns (b: bool)
      ensures TxRep(tx) && Near(Next(tx), tx.limit) ==> (b <==> Next(tx) < tx.limit)
    {
      b := SerialLess(sendNext, sendMax);
      if Near(Next(tx), tx.limit) { SerialAgrees(Next(tx), tx.limit); }
    }

    /** send_ddp_segment up to the transmission; the target position must be empty, as the
        source asserts. */
    method SendSegment(item: Pending, ghost tx: Tx) returns (psn: u32)
      requires txPending.Length > 0 && Sized()
      requires txPending[IndexOf(sendNext, txPending.Length)].Empty?
      modifies this`sendNext, txPending
      ensures psn == old(sendNext)
      ensures old(TxRep(tx)) ==> TxRep(Pushed(tx, item))
    {
      psn := sendNext;
      var i := IndexOf(psn, txPending.Length);
      ghost var slots := txPending[..];
      if TxRep(tx) {
        ghost var j: nat :| j <= 32 && txPending.Length == Pow2(j);
        IndexIsMod(Next(tx), txPending.Length, j);
        TargetIsEmptyIffRoom(slots, txHead, tx);
        PushKeepsRing(slots, txHead, tx, item);
        WrapAdd(Next(tx), 1);
      }
      sendNext := Add32(sendNext, 1);
      txPending[i] := Full(Entry(psn, item, false));
      assert txPending[..] == slots[i := Full(Entry(psn, item, false))];
    }

    /** The datagram at the head of the ring leaves it. */
    method FreeHead(ghost tx: Tx) returns (item: Pending)
      requires TxRep(tx) && tx.pend != [] && txHead < txPending.Length && txPending[txHead].Full?
      modifies this`txHead, txPending
      ensures TxRep(Popped(tx)) && item == tx.pend[0]
    {
      ghost var slots := txPending[..];
      PopKeepsRing(slots, txHead, tx);
      item := txPending[txHead].entry.item;
      txPending[txHead] := Empty;
      assert txPending[..] == slots[txHead := Empty];
      txHead := if txHead + 1 == txPending.Length then 0 else txHead + 1;
    }

    /** What the head of the ring shows. */
    lemma HeadShows(tx: Tx)
      requires TxRep(tx) && txPending.Length > 0
      ensures txHead < txPending.Length
      ensures txPending[txHead].Full? <==> tx.pend != []
      ensures tx.pend != [] ==> txPending[txHead].entry.psn == Wrap(tx.head)
    {
      assert txPending[..][txHead] == SlotFor(tx, tx.head);
    }

    /** The first loop of sweep_unacked_packets: acknowledged datagrams leave from the head of
        the ring, in order. */
    method SweepAcked(ghost tx: Tx) returns (freed: seq<Pending>)
      requires txPending.Length > 0 && TxRep(tx) && TxNear(tx)
      modifies this`txHead, txPending
      ensures TxRep(Swept(tx))
      ensures freed + Swept(tx).pend == tx.pend
    {
      freed := [];
      ghost var cur := tx;
      var count := 0;
      HeadShows(cur);
      while count < txPending.Length && txPending[txHead].Full?
        invariant TxRep(cur) && Swept(cur) == Swept(tx) && freed + cur.pend == tx.pend && |freed| == count
        invariant cur.acked == tx.acked && tx.head <= cur.head && Next(cur) == Next(tx)
        invariant |tx.pend| <= txPending.Length
        invariant txHead < txPending.Length && (txPending[txHead].Full? <==> cur.pend != [])
        decreases txPending.Length - count
      {
        HeadShows(cur);
        SweptStep(cur, freed);
        SerialAgrees(cur.head, cur.acked);
        if !SerialLess(txPending[txHead].entry.psn, sendLastAcked) {
          break;
        }
        var item := FreeHead(cur);
        freed := freed + [item];
        cur := Popped(cur);
        count := count + 1;
        HeadShows(cur);
      }
      SweptStep(cur, freed);
    }
  }
}
