/** Over whole runs the 32-bit state follows the unbounded one, given that the network does
    not deliver datagrams from half the number space ago. */
module Window {
  import opened Bits
  import opened Serial
  import opened Ddp
  import opened TrpReceive
  import opened Endpoint
  import opened System
  import opened Transport
  import opened Invariant
  import opened Theorems
  import opened EeState
  import BinHeap

  /** The ring is small against the number space; tx_desc_count is a 16-bit number. */
  predicate SmallRing(x: Side) {
    x.ep.cfg.size < 0x1_0000
  }

  /** The datagram is less than 2^31 numbers behind the receiver, by a ring's length ... */
  predicate RecentData(x: Side, y: Side, d: Datagram) {
    d.Data? ==> y.ep.rx.ack + x.ep.cfg.size < d.psn + HALF
  }

  /** ... and its acknowledgement as little behind what the receiver has sent. */
  predicate RecentAck(y: Side, d: Datagram) {
    (d.Data? || d.Ack?) ==> Next(y.ep.tx) < d.ack + HALF
  }

  /** A recent datagram from x: the 32-bit receive machine of y accepts it exactly if the
      unbounded one does and ends in the state that stands for its state. */
  lemma ReceiveFollows(x: Side, y: Side, d: Datagram)
    requires Occurs(x, y) && SmallRing(x) && d in x.out && d.Data? && RecentData(x, y, d)
    ensures RxOk(y.ep.rx) && RxNear(y.ep.rx, d.psn)
    ensures Rx32Step(WrapRx(y.ep.rx), Wrap(d.psn)) == (WrapRx(RxStep(y.ep.rx, d.psn).0), RxStep(y.ep.rx, d.psn).1)
  {
    OccursWired(x, y);
    assert HonestDatagram(d, x.log, x.ep.rx);
    Rx32Simulates(y.ep.rx, d.psn);
  }

  /** After a recent acknowledgement from x every number that the sweep and the credit check
      of y compare is near the other. */
  lemma SendFollows(x: Side, y: Side, d: Datagram)
    requires Occurs(x, y) && SmallRing(y) && y.ep.cfg.size > 0 && d in x.out && (d.Data? || d.Ack?) && RecentAck(y, d)
    ensures TxNear(TakeAck(y.ep.tx, d.ack, y.ep.cfg.size))
    ensures TxNear(Swept(TakeAck(y.ep.tx, d.ack, y.ep.cfg.size)))
  {
    OccursTurned(x, y);
    OccursWired(y, x);
    assert HonestDatagram(d, x.log, x.ep.rx);
    SweptStays(TakeAck(y.ep.tx, d.ack, y.ep.cfg.size));
  }

  /** A SACK from x that is not half the number space behind what y has sent: every number in the
      ring of y is near both ends of its range, so that the 32-bit rule is the unbounded one. */
  lemma SackFollows(x: Side, y: Side, lo: nat, hi: nat)
    requires Occurs(x, y) && SmallRing(y) && Sack(lo, hi) in x.out && Next(y.ep.tx) < lo + HALF
    ensures SackNear(y.ep.tx, lo, hi) && SackNear(Swept(y.ep.tx), lo, hi)
  {
    OccursTurned(x, y);
    OccursWired(y, x);
    assert HonestDatagram(Sack(lo, hi), x.log, x.ep.rx);
    assert Accepted(x.ep.rx, hi - 1);
    SweptStays(y.ep.tx);
  }

  /** In every run the slot that send_ddp_segment takes is empty, as the source asserts. */
  lemma SlotIsFree(x: Side, y: Side, slots: seq<TxSlot>, at: nat, j: nat)
    requires Occurs(x, y) && HasCredit(x.ep) && RingRep(slots, at, x.ep.tx)
    requires |slots| == x.ep.cfg.size == Pow2(j) && j <= 32
    ensures var k := IndexOf(Wrap(Next(x.ep.tx)), |slots|); k < |slots| && slots[k].Empty?
  {
    WindowHolds(x, y);
    IndexIsMod(Next(x.ep.tx), |slots|, j);
    TargetIsEmptyIffRoom(slots, at, x.ep.tx);
  }

  lemma {:induction false} SweptStays(tx: Tx)
    ensures tx.head <= Swept(tx).head && Swept(tx).limit == tx.limit
    decreases |tx.pend|
  {
    if tx.pend != [] && tx.head < tx.acked { SweptStays(Popped(tx)); }
  }

  /** Sweeping is freeing head by head, so it is a run of the system's steps. */
  lemma {:induction false} SweptIsRun(x: Side, y: Side)
    requires Occurs(x, y) && !x.ep.closed
    ensures exists x' :: Occurs(x', y) && x'.ep.tx == Swept(x.ep.tx) && x'.log == x.log
    decreases |x.ep.tx.pend|
  {
    if x.ep.tx.pend != [] && x.ep.tx.head < x.ep.tx.acked {
      HeadIsFreed(x, y);
      var x1 := Advance(x, FreeAcked);
      SweptIsRun(x1, y);
    } else {
      assert Swept(x.ep.tx) == x.ep.tx;
    }
  }

  lemma HeadIsFreed(x: Side, y: Side)
    requires Occurs(x, y) && !x.ep.closed && x.ep.tx.pend != [] && x.ep.tx.head < x.ep.tx.acked
    ensures CanStep(x, y, FreeAcked)
    ensures var x1 := Advance(x, FreeAcked);
            Occurs(x1, y) && !x1.ep.closed && x1.ep.tx == Popped(x.ep.tx) && x1.log == x.log
  {
    OccursHolds(x, y);
    RingKnown(x);
    OccursNext(x, y, FreeAcked);
  }

  // ---- The heap of last-segment numbers ----

  /** The stored heap has, with their multiplicities, the wrapped numbers of an unbounded one that
      lies in one block of 2^32 numbers. */
  ghost predicate HeapRep(m: multiset<u32>, heap: multiset<nat>, block: nat) {
    && (forall p :: p in heap ==> p / MODULUS == block)
    && (forall u: u32 :: m[u] == heap[block * MODULUS + u as int])
  }

  lemma Unwrap(p: nat, block: nat)
    requires p / MODULUS == block
    ensures p == block * MODULUS + Wrap(p) as int
  {
  }

  /** Inserting a number of the block keeps the two together. */
  lemma HeapRepInsert(m: multiset<u32>, heap: multiset<nat>, block: nat, p: nat)
    requires HeapRep(m, heap, block) && p / MODULUS == block
    ensures HeapRep(m + multiset{Wrap(p)}, heap + multiset{p}, block)
  {
    Unwrap(p, block);
  }

  lemma LeastIsMin(m: multiset<u32>, heap: multiset<nat>, block: nat, v: u32)
    requires HeapRep(m, heap, block) && BinHeap.IsLeast(v, m)
    ensures heap != multiset{} && MinOf(heap) == block * MODULUS + v as int && v == Wrap(MinOf(heap))
  {
    var p := block * MODULUS + v as int;
    assert p in heap;
    assert v == Wrap(p) by { ModUnique(p, block, v as int); }
    forall q | q in heap ensures p <= q {
      Unwrap(q, block);
      assert Wrap(q) in m;
    }
  }

  lemma HeapRepRemove(m: multiset<u32>, heap: multiset<nat>, block: nat, v: u32, p: nat)
    requires HeapRep(m, heap, block) && p == block * MODULUS + v as int
    ensures HeapRep(m - multiset{v}, heap - multiset{p}, block)
  {
  }

  /** The minimum of the stored heap is the wrapped minimum of the unbounded one, popping it pops
      that one, and in the block the plain test is the unbounded one. */
  lemma HeapRepPop(m: multiset<u32>, heap: multiset<nat>, block: nat, v: u32, ack: nat)
    requires HeapRep(m, heap, block) && BinHeap.IsLeast(v, m) && ack / MODULUS == block
    ensures heap != multiset{} && v == Wrap(MinOf(heap))
    ensures HeapRep(m - multiset{v}, heap - multiset{MinOf(heap)}, block)
    ensures v < Wrap(ack) <==> MinOf(heap) < ack
  {
    LeastIsMin(m, heap, block, v);
    HeapRepRemove(m, heap, block, v, MinOf(heap));
    Unwrap(ack, block);
  }

  /** In every run: as long as the pending last-segment numbers lie in the 2^32 block of the
      acknowledgement, the plain comparison of the stored minimum with the stored acknowledgement
      is the guard of the read-completion loop. */
  lemma PopGuardFollows(x: Side, y: Side, m: multiset<u32>, v: u32)
    requires Occurs(x, y) && !x.ep.closed && HeapRep(m, x.ep.sq.heap, x.ep.rx.ack / MODULUS) && BinHeap.IsLeast(v, m)
    ensures Wf(x.ep) && (v < Wrap(x.ep.rx.ack) <==> Enabled(x.ep, PopRead))
    ensures Enabled(x.ep, PopRead) ==>
              HeapRep(m - multiset{v}, Do(x.ep, PopRead).sq.heap, x.ep.rx.ack / MODULUS)
  {
    OccursWired(x, y);
    HeapRepPop(m, x.ep.sq.heap, x.ep.rx.ack / MODULUS, v, x.ep.rx.ack);
  }
}
