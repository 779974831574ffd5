/** The receive work queue: untagged placement, reassembly and in-order completion. */
module RecvQueue {
  import opened Iov

  /** bufs is the scatter list with its current contents, id the number of the post. */
  datatype Rwqe = Rwqe(id: nat, bufs: seq<seq<byte>>, msn: nat, recvSize: nat, inputSize: nat, complete: bool)

  datatype RecvCqe = RecvCqe(wqe: Rwqe, ok: bool)

  /** posts is the history of the scatter lists posted. */
  datatype RecvQ = RecvQ(
    ring: seq<Rwqe>, active: seq<Rwqe>, nextMsn: nat, cqes: seq<RecvCqe>, posts: seq<seq<seq<byte>>>)

  const RECVQ_START := RecvQ([], [], 1, [], [])

  function PostRecv(q: RecvQ, bufs: seq<seq<byte>>): RecvQ {
    q.(ring := q.ring + [Rwqe(|q.posts|, bufs, 0, 0, 0, false)], posts := q.posts + [bufs])
  }

  /** dequeue_recv_wqes: everything posted becomes active and gets the next MSNs. */
  function Dequeue(q: RecvQ): RecvQ {
    q.(ring := [],
       active := q.active + seq(|q.ring|, k requires 0 <= k < |q.ring| => q.ring[k].(msn := q.nextMsn + k)),
       nextMsn := q.nextMsn + |q.ring|)
  }

  /** The position of the active WQE with a given MSN, or the length of the list. */
  function Lookup(active: seq<Rwqe>, msn: nat): (k: nat)
    ensures k <= |active|
    ensures forall i :: 0 <= i < k ==> active[i].msn != msn
    ensures k < |active| ==> active[k].msn == msn
  {
    if active == [] then 0
    else if active[0].msn == msn then 0
    else 1 + Lookup(active[1..], msn)
  }

  /** The queue as process_send looks it up: refilled if the active list was empty. */
  function Refilled(q: RecvQ): RecvQ {
    if q.active == [] then Dequeue(q) else q
  }

  /** The segment is placed: there is a receive for its MSN, it fits, and it is not a second
      last segment. */
  predicate Fits(q: RecvQ, msn: nat, mo: nat, last: bool, data: seq<byte>) {
    var k := Lookup(q.active, msn);
    && k < |q.active|
    && mo + |data| <= |Flat(q.active[k].bufs)|
    && !(last && q.active[k].inputSize != 0)
  }

  function PlaceIn(r: Rwqe, mo: nat, last: bool, data: seq<byte>): Rwqe {
    var size := r.recvSize + |data|;
    var input := if last then mo + |data| else r.inputSize;
    r.(bufs := Scatter(r.bufs, data, mo), recvSize := size, inputSize := input,
       complete := r.complete || size == input)
  }

  /** Success completions from the head of the active list, as far as it is complete. */
  function PostComplete(q: RecvQ): RecvQ
    decreases |q.active|
  {
    if q.active != [] && q.active[0].complete then
      PostComplete(q.(active := q.active[1..], cqes := q.cqes + [RecvCqe(q.active[0], true)]))
    else q
  }

  /** process_send; inOrder says that the segment left no hole before it. */
  function ProcessSend(q: RecvQ, msn: nat, mo: nat, last: bool, data: seq<byte>, inOrder: bool): RecvQ {
    var q1 := Refilled(q);
    if !Fits(q1, msn, mo, last, data) then q1
    else
      var k := Lookup(q1.active, msn);
      var q2 := q1.(active := q1.active[k := PlaceIn(q1.active[k], mo, last, data)]);
      if inOrder then PostComplete(q2) else q2
  }

  /** rq_flush. */
  function FlushRecv(q: RecvQ): RecvQ {
    var q1 := Dequeue(q);
    q1.(active := [],
        cqes := q1.cqes + seq(|q1.active|, k requires 0 <= k < |q1.active| => RecvCqe(q1.active[k], false)))
  }

  /** MSNs run on from the completed receives through the active list. */
  ghost predicate Numbered(q: RecvQ) {
    && q.nextMsn == |q.cqes| + |q.active| + 1
    && (forall k :: 0 <= k < |q.cqes| ==> q.cqes[k].wqe.msn == k + 1)
    && (forall k :: 0 <= k < |q.active| ==> q.active[k].msn == |q.cqes| + 1 + k)
  }

  ghost predicate Blank(q: RecvQ) {
    forall k :: 0 <= k < |q.ring| ==>
      q.ring[k].recvSize == 0 && q.ring[k].inputSize == 0 && !q.ring[k].complete
  }

  lemma {:induction false} PostCompleteKeeps(q: RecvQ)
    requires Numbered(q)
    ensures Numbered(PostComplete(q))
    ensures q.cqes <= PostComplete(q).cqes
    ensures PostComplete(q).ring == q.ring && PostComplete(q).nextMsn == q.nextMsn
    decreases |q.active|
  {
    if q.active != [] && q.active[0].complete {
      PostCompleteKeeps(q.(active := q.active[1..], cqes := q.cqes + [RecvCqe(q.active[0], true)]));
    }
  }

  // ---- Posting order ----

  ghost predicate SameShape(a: seq<seq<byte>>, b: seq<seq<byte>>) {
    |a| == |b| && forall i :: 0 <= i < |a| ==> |a[i]| == |b[i]|
  }

  /** r is the n-th receive posted, with the elements it was posted with. */
  ghost predicate IsPost(r: Rwqe, n: nat, posts: seq<seq<seq<byte>>>) {
    r.id == n < |posts| && SameShape(r.bufs, posts[n])
  }

  /** Completed, then active, then waiting: together exactly the receives posted, in that order. */
  ghost predicate InPostOrder(q: RecvQ) {
    && |q.posts| == |q.cqes| + |q.active| + |q.ring|
    && (forall k {:trigger q.cqes[k]} :: 0 <= k < |q.cqes| ==> IsPost(q.cqes[k].wqe, k, q.posts))
    && (forall k {:trigger q.active[k]} :: 0 <= k < |q.active| ==> IsPost(q.active[k], |q.cqes| + k, q.posts))
    && (forall k {:trigger q.ring[k]} :: 0 <= k < |q.ring| ==> IsPost(q.ring[k], |q.cqes| + |q.active| + k, q.posts))
  }

  lemma PostKeepsOrder(q: RecvQ, bufs: seq<seq<byte>>)
    requires InPostOrder(q)
    ensures InPostOrder(PostRecv(q, bufs))
  {
  }

  lemma DequeueKeepsOrder(q: RecvQ)
    requires InPostOrder(q)
    ensures InPostOrder(Dequeue(q))
  {
  }

  lemma PlaceKeepsOrder(q: RecvQ, k: nat, mo: nat, last: bool, data: seq<byte>)
    requires InPostOrder(q) && k < |q.active|
    ensures InPostOrder(q.(active := q.active[k := PlaceIn(q.active[k], mo, last, data)]))
  {
    var r := PlaceIn(q.active[k], mo, last, data);
    assert SameShape(r.bufs, q.active[k].bufs);
    assert IsPost(r, |q.cqes| + k, q.posts);
  }

  lemma {:induction false} CompleteKeepsOrder(q: RecvQ)
    requires InPostOrder(q)
    ensures InPostOrder(PostComplete(q))
    decreases |q.active|
  {
    if q.active != [] && q.active[0].complete {
      CompleteKeepsOrder(q.(active := q.active[1..], cqes := q.cqes + [RecvCqe(q.active[0], true)]));
    }
  }

  /** process_send keeps the receives in posting order, whatever the segment. */
  lemma SendKeepsOrder(q: RecvQ, msn: nat, mo: nat, last: bool, data: seq<byte>, inOrder: bool)
    requires InPostOrder(q)
    ensures InPostOrder(ProcessSend(q, msn, mo, last, data, inOrder))
  {
    DequeueKeepsOrder(q);
    var q1 := Refilled(q);
    if Fits(q1, msn, mo, last, data) {
      var k := Lookup(q1.active, msn);
      PlaceKeepsOrder(q1, k, mo, last, data);
      CompleteKeepsOrder(q1.(active := q1.active[k := PlaceIn(q1.active[k], mo, last, data)]));
    }
  }

  /** ... and so does the flush. */
  lemma FlushKeepsOrder(q: RecvQ)
    requires InPostOrder(q)
    ensures InPostOrder(FlushRecv(q))
  {
    DequeueKeepsOrder(q);
  }
}
