/** The rings of queue entries: completion queues, and the receive WQEs of a queue pair. */
module CompletionQueue {
  import opened Bits

  const SIZE_POW2_MAX: nat := 0x4000_0000

  /** An rte_ring: a ring of count slots holds one entry less. */
  class Ring {
    const capacity: nat
    var items: seq<nat>

    ghost predicate Valid()
      reads this
    {
      |items| <= capacity
    }

    /** rte_ring_init demands a power of two. */
    constructor (count: nat)
      requires IsPow2(count) && count > 0
      ensures capacity == count - 1 && items == []
    {
      capacity := count - 1;
      items := [];
    }

    method Enqueue(x: nat) returns (ok: bool)
      requires Valid()
      modifies this
      ensures Valid() && (ok <==> |old(items)| < capacity)
      ensures items == if ok then old(items) + [x] else old(items)
    {
      ok := |items| < capacity;
      if ok {
        items := items + [x];
      }
    }

    method Dequeue() returns (ok: bool, x: nat)
      requires Valid()
      modifies this
      ensures Valid() && (ok <==> old(items) != [])
      ensures old(items) == if ok then [x] + items else items
    {
      ok, x := items != [], 0;
      if ok {
        x, items := items[0], items[1..];
      }
    }

    /** As many as there are, up to n. */
    method DequeueBurst(n: nat) returns (xs: seq<nat>)
      requires Valid()
      modifies this
      ensures Valid() && old(items) == xs + items && |xs| == Min(n, |old(items)|)
    {
      var k := Min(n, |items|);
      xs, items := items[..k], items[k..];
    }

    /** As many as fit. */
    method EnqueueBurst(xs: seq<nat>) returns (k: nat)
      requires Valid()
      modifies this
      ensures Valid() && k == Min(|xs|, capacity - |old(items)|) && items == old(items) + xs[..k]
    {
      k := Min(|xs|, capacity - |items|);
      items := items + xs[..k];
    }
  }

  function Min(a: nat, b: nat): nat {
    if a < b then a else b
  }

  /** Entries 0 to n - 1. */
  function All(n: nat): seq<nat> {
    seq(n, i => i)
  }

  /** Every one of n entries is in exactly one place: in one of two rings, or held elsewhere. */
  ghost predicate Parts(n: nat, a: seq<nat>, b: seq<nat>, held: multiset<nat>) {
    multiset(a) + multiset(b) + held == multiset(All(n))
  }

  lemma PartsCount(n: nat, a: seq<nat>, b: seq<nat>, held: multiset<nat>)
    requires Parts(n, a, b, held)
    ensures |a| + |b| + |held| == n
  {
    assert |multiset(a) + multiset(b) + held| == |a| + |b| + |held|;
    assert |multiset(All(n))| == n;
  }

  lemma PartsBound(n: nat, a: seq<nat>, b: seq<nat>, held: multiset<nat>, x: nat)
    requires Parts(n, a, b, held) && (x in a || x in b || x in held)
    ensures x < n
  {
    assert x in multiset(a) + multiset(b) + held;
    assert x in multiset(All(n));
    assert x in All(n);
  }

  lemma PartsStart(n: nat)
    ensures Parts(n, All(n), [], multiset{})
  {
  }

  /** The first entry of a ring is taken in hand. */
  lemma PartsTake(n: nat, a: seq<nat>, b: seq<nat>, held: multiset<nat>, x: nat)
    requires Parts(n, [x] + a, b, held)
    ensures x < n && Parts(n, a, b, held + multiset{x})
  {
    PartsBound(n, [x] + a, b, held, x);
    assert multiset([x] + a) == multiset{x} + multiset(a);
  }

  /** An entry in hand is queued in a ring, which has room for it. */
  lemma PartsPut(n: nat, a: seq<nat>, b: seq<nat>, held: multiset<nat>, x: nat)
    requires Parts(n, a, b, held) && x in held
    ensures x < n && |a| < n && |b| < n
    ensures Parts(n, a + [x], b, held - multiset{x}) && Parts(n, a, b + [x], held - multiset{x})
  {
    PartsBound(n, a, b, held, x);
    PartsCount(n, a, b, held);
    assert held == held - multiset{x} + multiset{x};
    assert multiset(a + [x]) == multiset(a) + multiset{x};
    assert multiset(b + [x]) == multiset(b) + multiset{x};
  }

  /** An entry in hand is in no ring. */
  lemma Unshared(n: nat, a: seq<nat>, b: seq<nat>, held: multiset<nat>, x: nat)
    requires Parts(n, a, b, held) && x in held
    ensures x !in a && x !in b
  {
    AllOnce(n, x);
    assert multiset(a)[x] + multiset(b)[x] + held[x] == multiset(All(n))[x];
  }

  lemma {:induction false} AllOnce(n: nat, x: nat)
    ensures multiset(All(n))[x] <= 1
  {
    if n > 0 {
      assert All(n) == All(n - 1) + [n - 1];
      AllOnce(n - 1, x);
      if x == n - 1 { assert x !in All(n - 1); }
    }
  }

  /** A ring that holds every entry, as the free rings begin. */
  method NewFilled(count: nat) returns (f: Ring)
    requires IsPow2(count) && count > 0
    ensures fresh(f) && f.capacity == count - 1 && f.items == All(count - 1)
  {
    f := new Ring(count);
    var x := 0;
    while x < count - 1
      invariant 0 <= x <= count - 1 == f.capacity && f.items == All(x) && f.Valid()
    {
      var _ := f.Enqueue(x);
      x := x + 1;
    }
  }

  /** What a completion says. */
  type Wc = nat

  class Cq {
    const capacity: nat
    const ready: Ring
    const free: Ring
    const storage: array<Wc>
    ghost var inHand: multiset<nat>

    /** Every entry is in the free ring, in the ready ring or in the hands of a poster. */
    ghost predicate Valid()
      reads this, ready, free
    {
      && ready != free && ready.capacity == free.capacity == capacity == storage.Length
      && ready.Valid() && free.Valid()
      && Parts(capacity, free.items, ready.items, inHand)
      && Within(ready.items, capacity)
    }

    /** The completions waiting to be polled, oldest first. */
    ghost function Pending(): seq<Wc>
      requires Valid()
      reads this, ready, free, storage
    {
      Contents(storage[..], ready.items)
    }

    /** The rings of a completion queue, for a size that is accepted. */
    constructor (size: int)
      requires size + 1 < SIZE_POW2_MAX
      ensures Valid() && capacity >= size && IsPow2(capacity + 1) && Pending() == [] && inHand == multiset{}
      ensures forall k :: size < Pow2(k) ==> capacity < Pow2(k)
      ensures fresh(ready) && fresh(free) && fresh(storage)
    {
      var count := NextPow2(size + 1);
      capacity := count - 1;
      ready := new Ring(count);
      var filled := NewFilled(count);
      free := filled;
      storage := new Wc[count - 1];
      inHand := multiset{};
      PartsStart(count - 1);
    }

    /** get_next_cqe. */
    method GetNext() returns (ok: bool, x: nat)
      requires Valid()
      modifies this`inHand, free
      ensures Valid() && (ok <==> old(free.items) != [])
      ensures ok ==> x < capacity && inHand == old(inHand) + multiset{x}
      ensures old(free.items) == if ok then [x] + free.items else free.items
      ensures !ok ==> inHand == old(inHand)
    {
      ok, x := free.Dequeue();
      if ok {
        PartsTake(capacity, free.items, ready.items, inHand, x);
        inHand := inHand + multiset{x};
      }
    }

    /** finish_post_cqe: an entry that its poster has filled in is queued. The ring has room. */
    method FinishPost(x: nat)
      requires Valid() && x in inHand
      modifies this`inHand, ready
      ensures Valid() && inHand == old(inHand) - multiset{x} && ready.items == old(ready.items) + [x]
    {
      PartsPut(capacity, free.items, ready.items, inHand, x);
      var ok := ready.Enqueue(x);
      assert ok;
      inHand := inHand - multiset{x};
    }

    /** A completion is posted, unless no entry is free. */
    method Post(wc: Wc) returns (ok: bool)
      requires Valid()
      modifies this`inHand, free, ready, storage
      ensures Valid() && inHand == old(inHand) && (ok <==> |old(Pending())| + |inHand| < capacity)
      ensures Pending() == if ok then old(Pending()) + [wc] else old(Pending())
    {
      PartsCount(capacity, free.items, ready.items, inHand);
      var x;
      ok, x := GetNext();
      if ok {
        ghost var was, waiting := storage[..], ready.items;
        Unshared(capacity, free.items, waiting, inHand, x);
        storage[x] := wc;
        FinishPost(x);
        ContentsPost(was, waiting, x, wc);
        assert storage[..] == was[x := wc];
      }
    }

    method CopyOut(xs: seq<nat>) returns (wcs: seq<Wc>)
      requires Within(xs, storage.Length)
      ensures wcs == Contents(storage[..], xs)
    {
      wcs := [];
      var i := 0;
      while i < |xs|
        invariant 0 <= i <= |xs| && wcs == Contents(storage[..], xs[..i])
      {
        wcs := wcs + [storage[xs[i]]];
        i := i + 1;
      }
      assert xs[..i] == xs;
    }

    /** do_poll_cq: the oldest completions, in the order they were posted, and their entries are
        free again. The free ring has room for all of them. */
    method Poll(n: nat) returns (wcs: seq<Wc>)
      requires Valid()
      modifies ready, free
      ensures Valid() && |wcs| == Min(n, |old(Pending())|) && old(Pending()) == wcs + Pending()
    {
      ghost var all := ready.items;
      var xs := ready.DequeueBurst(n);
      ContentsSplit(storage[..], all, xs, ready.items);
      PollParts(capacity, free.items, all, inHand, xs, ready.items);
      wcs := CopyOut(xs);
      var k := free.EnqueueBurst(xs);
      assert k == |xs|;
      assert xs[..k] == xs;
    }
  }

  /** What usiw_create_cq comes to: a refusal, an assertion that fails, or a queue. */
  datatype Creation = Refused | AssertionFails | Created(cq: Cq)

  /** usiw_create_cq: refuses what is too large, and lets one size through that next_pow2 asserts
      against. */
  method CreateCq(size: int) returns (r: Creation)
    ensures r.Refused? <==> size + 1 > SIZE_POW2_MAX
    ensures r.AssertionFails? <==> size + 1 == SIZE_POW2_MAX
    ensures r.Created? ==> fresh(r.cq) && r.cq.Valid() && r.cq.capacity >= size && r.cq.Pending() == []
    ensures r.Created? ==> IsPow2(r.cq.capacity + 1) && forall k :: size < Pow2(k) ==> r.cq.capacity < Pow2(k)
  {
    if size + 1 > SIZE_POW2_MAX {
      return Refused;
    }
    if size + 1 == SIZE_POW2_MAX {
      return AssertionFails;
    }
    var cq := new Cq(size);
    r := Created(cq);
  }

  predicate Within(xs: seq<nat>, n: nat) {
    forall i :: 0 <= i < |xs| ==> xs[i] < n
  }

  lemma ContentsSplit(store: seq<Wc>, all: seq<nat>, xs: seq<nat>, rest: seq<nat>)
    requires Within(all, |store|) && all == xs + rest
    ensures Within(xs, |store|) && Within(rest, |store|)
    ensures Contents(store, all) == Contents(store, xs) + Contents(store, rest)
  {
    assert forall i :: 0 <= i < |xs| ==> xs[i] == all[i];
    assert forall i :: 0 <= i < |rest| ==> rest[i] == all[|xs| + i];
  }

  lemma PollParts(n: nat, free: seq<nat>, all: seq<nat>, held: multiset<nat>, xs: seq<nat>, rest: seq<nat>)
    requires Parts(n, free, all, held) && all == xs + rest
    ensures Parts(n, free + xs, rest, held) && |free| + |xs| <= n
  {
    assert multiset(all) == multiset(xs) + multiset(rest);
    assert multiset(free + xs) == multiset(free) + multiset(xs);
    PartsCount(n, free + xs, rest, held);
  }

  function Contents(store: seq<Wc>, xs: seq<nat>): seq<Wc>
    requires Within(xs, |store|)
  {
    seq(|xs|, i requires 0 <= i < |xs| => store[xs[i]])
  }

  lemma ContentsPost(store: seq<Wc>, xs: seq<nat>, x: nat, wc: Wc)
    requires Within(xs, |store|)
    requires x < |store| && x !in xs
    ensures Contents(store[x := wc], xs + [x]) == Contents(store, xs) + [wc]
  {
  }

  datatype Status = Ok | Einval | Enospc

  class RecvEntries {
    const maxWr: nat
    const ring: Ring
    const free: Ring
    var active: seq<nat>
    ghost var inHand: multiset<nat>

    /** Every receive WQE is free, posted, active or in the hands of the poster. */
    ghost predicate Valid()
      reads this, ring, free
    {
      && ring != free && ring.capacity == free.capacity == maxWr && ring.Valid() && free.Valid()
      && Parts(maxWr, free.items, ring.items, multiset(active) + inHand)
    }

    /** usiw_recv_wqe_queue_init, with the size usiw_create_qp gives it. */
    constructor (want: nat)
      requires want + 1 < SIZE_POW2_MAX
      ensures Valid() && maxWr >= want && maxWr >= 63 && active == [] && inHand == multiset{}
      ensures fresh(ring) && fresh(free) && free.items == All(maxWr)
      ensures IsPow2(maxWr + 1) && (maxWr == 63 || forall k :: want < Pow2(k) ==> maxWr < Pow2(k))
    {
      var p := NextPow2(want + 1);
      var count := if p < 64 then 64 else p;
      assert IsPow2(64) by { assert Pow2(6) == 64; }
      maxWr := count - 1;
      ring := new Ring(count);
      var filled := NewFilled(count);
      free := filled;
      active := [];
      inHand := multiset{};
      PartsStart(count - 1);
    }

    /** qp_get_next_recv_wqe: fails only if every WQE is in use. */
    method GetNext() returns (ok: bool, x: nat)
      requires Valid()
      modifies this`inHand, free
      ensures Valid() && old(free.items) == if ok then [x] + free.items else free.items
      ensures (ok <==> old(free.items) != []) && (ok <==> |ring.items| + |active| + |old(inHand)| < maxWr)
      ensures inHand == if ok then old(inHand) + multiset{x} else old(inHand)
    {
      PartsCount(maxWr, free.items, ring.items, multiset(active) + inHand);
      ok, x := free.Dequeue();
      if ok {
        PartsTake(maxWr, free.items, ring.items, multiset(active) + inHand, x);
        assert multiset(active) + inHand + multiset{x} == multiset(active) + (inHand + multiset{x});
        inHand := inHand + multiset{x};
      }
    }

    /** The end of usiw_post_recv: the filled-in WQE is queued, and the ring has room. */
    method Post(x: nat)
      requires Valid() && x in inHand
      modifies this`inHand, ring
      ensures Valid() && ring.items == old(ring.items) + [x] && inHand == old(inHand) - multiset{x}
    {
      ghost var held := multiset(active) + inHand;
      PartsPut(maxWr, free.items, ring.items, held, x);
      assert held - multiset{x} == multiset(active) + (inHand - multiset{x});
      var ok := ring.Enqueue(x);
      assert ok;
      inHand := inHand - multiset{x};
    }

    method PostOne() returns (ok: bool)
      requires Valid() && inHand == multiset{}
      modifies this`inHand, ring, free
      ensures Valid() && inHand == multiset{} && (ok <==> old(free.items) != [])
      ensures ok ==> ring.items == old(ring.items) + [old(free.items)[0]] && free.items == old(free.items)[1..]
      ensures !ok ==> ring.items == old(ring.items) && free.items == old(free.items)
    {
      var x;
      ok, x := GetNext();
      if ok {
        Post(x);
      }
    }

    /** usiw_post_recv on a list of requests, each with its number of scatter elements: they are
        posted in order up to the first one that is refused. The status tells why it was. */
    method PostList(sges: seq<nat>, maxSge: nat, error: bool) returns (n: nat, status: Status)
      requires Valid() && inHand == multiset{}
      modifies this`inHand, ring, free
      ensures Valid() && inHand == multiset{} && n <= |sges| && n <= |old(free.items)|
      ensures ring.items == old(ring.items) + old(free.items)[..n] && free.items == old(free.items)[n..]
      ensures forall i :: 0 <= i < n ==> sges[i] <= maxSge
      ensures match status
        case Ok => !error && n == |sges|
        case Einval => if error then n == 0 else n < |sges| && sges[n] > maxSge
        case Enospc => !error && n < |sges| && sges[n] <= maxSge && free.items == []
    {
      n := 0;
      if error {
        return 0, Einval;
      }
      ghost var all := free.items;
      while n < |sges|
        invariant Valid() && inHand == multiset{} && n <= |sges| && n <= |all|
        invariant ring.items == old(ring.items) + all[..n] && free.items == all[n..]
        invariant forall i :: 0 <= i < n ==> sges[i] <= maxSge
      {
        if sges[n] > maxSge {
          return n, Einval;
        }
        var ok := PostOne();
        if !ok {
          return n, Enospc;
        }
        SnocTake(old(ring.items), all, n);
        n := n + 1;
      }
      status := Ok;
    }

    /** dequeue_recv_wqes: everything posted becomes active, in order. */
    method DequeueAll()
      requires Valid()
      modifies this`active, ring
      ensures Valid() && ring.items == [] && active == old(active) + old(ring.items)
    {
      ghost var all := ring.items;
      var xs := ring.DequeueBurst(maxWr + 1);
      while |xs| > 0
        invariant ring.Valid() && active + (xs + ring.items) == old(active) + all
        invariant xs == [] ==> ring.items == []
        decreases |xs| + |ring.items|
      {
        active := active + xs;
        xs := ring.DequeueBurst(maxWr + 1);
      }
      assert active + (xs + ring.items) == active;
      assert multiset(active) == multiset(old(active)) + multiset(all);
    }

    /** qp_free_recv_wqe: an active WQE is free again, and the free ring has room. */
    method Free(k: nat)
      requires Valid() && k < |active|
      modifies this`active, free
      ensures Valid() && active == old(active)[..k] + old(active)[k + 1..]
      ensures free.items == old(free.items) + [old(active)[k]]
    {
      var x := active[k];
      ghost var held := multiset(active) + inHand;
      PartsPut(maxWr, free.items, ring.items, held, x);
      DropOne(active, k);
      active := active[..k] + active[k + 1..];
      assert held - multiset{x} == multiset(active) + inHand;
      var ok := free.Enqueue(x);
      assert ok;
    }
  }

  lemma SnocTake(s: seq<nat>, all: seq<nat>, n: nat)
    requires n < |all|
    ensures s + all[..n] + [all[n..][0]] == s + all[..n + 1] && all[n..][1..] == all[n + 1..]
  {
  }

  lemma DropOne(s: seq<nat>, k: nat)
    requires k < |s|
    ensures multiset(s[..k] + s[k + 1..]) == multiset(s) - multiset{s[k]}
  {
    assert s == s[..k] + [s[k]] + s[k + 1..];
  }
}
