/** The binary heap of last-segment numbers, in place on an array of fixed capacity. */
module BinHeap {
  import opened Serial

  function Parent(i: nat): nat
    requires i > 0
  {
    (i - 1) / 2
  }

  /** Every element but the root is not less than its parent, except possibly at one index. */
  ghost predicate OrderedBut(s: seq<u32>, hole: int) {
    forall j :: 0 < j < |s| && j != hole ==> s[Parent(j)] <= s[j]
  }

  /** Around that index, the grandparent relation holds. */
  ghost predicate Bridged(s: seq<u32>, hole: int) {
    forall j :: 0 < j < |s| && Parent(j) == hole && hole > 0 ==> s[Parent(hole)] <= s[j]
  }

  ghost predicate IsHeap(s: seq<u32>) {
    OrderedBut(s, 0)
  }

  /** Every element but the root is not less than its parent, except below one index. */
  ghost predicate OrderedAbove(s: seq<u32>, top: int) {
    forall j :: 0 < j < |s| && Parent(j) != top ==> s[Parent(j)] <= s[j]
  }

  /** The root of a heap is its minimum. */
  lemma {:induction false} RootIsLeast(s: seq<u32>, j: nat)
    requires IsHeap(s) && j < |s|
    ensures s[0] <= s[j]
  {
    if j > 0 { RootIsLeast(s, Parent(j)); }
  }

  /** A minimum of a collection of numbers. */
  ghost predicate IsLeast(v: u32, m: multiset<u32>) {
    v in m && forall x :: x in m ==> v <= x
  }

  function Swapped(s: seq<u32>, i: nat, j: nat): (r: seq<u32>)
    requires i < |s| && j < |s|
    ensures |r| == |s|
  {
    s[i := s[j]][j := s[i]]
  }

  lemma SwapKeepsElements(s: seq<u32>, i: nat, j: nat)
    requires i < |s| && j < |s|
    ensures multiset(Swapped(s, i, j)) == multiset(s)
  {
  }

  /** One turn of the upward loop. */
  lemma SiftUpStep(s: seq<u32>, i: nat)
    requires 0 < i < |s| && OrderedBut(s, i) && Bridged(s, i) && s[i] < s[Parent(i)]
    ensures OrderedBut(Swapped(s, i, Parent(i)), Parent(i)) && Bridged(Swapped(s, i, Parent(i)), Parent(i))
  {
    var p := Parent(i);
    var t := Swapped(s, i, p);
    forall j | 0 < j < |s| && j != p ensures t[Parent(j)] <= t[j] {
      if Parent(j) == i { assert s[p] <= s[j]; }
    }
    forall j | 0 < j < |s| && Parent(j) == p && p > 0 ensures t[Parent(p)] <= t[j] {
      assert s[Parent(p)] <= s[p];
    }
  }

  /** The smallest of an element and its children. */
  predicate IsLeastBelow(s: seq<u32>, i: nat, m: nat) {
    && i < |s| && m < |s| && (m == i || m == 2 * i + 1 || m == 2 * i + 2)
    && s[m] <= s[i]
    && (2 * i + 1 < |s| ==> s[m] <= s[2 * i + 1])
    && (2 * i + 2 < |s| ==> s[m] <= s[2 * i + 2])
  }

  lemma Child(j: nat, i: nat)
    requires j > 0
    ensures Parent(j) == i <==> j == 2 * i + 1 || j == 2 * i + 2
    ensures Parent(j) < j
  {
  }

  /** One turn of the downward loop: it ends, ... */
  lemma SiftDownEnds(s: seq<u32>, i: nat)
    requires OrderedAbove(s, i) && IsLeastBelow(s, i, i)
    ensures IsHeap(s)
  {
  }

  /** ... or it exchanges the element with its least child. */
  lemma SiftDownStep(s: seq<u32>, i: nat, m: nat)
    requires OrderedAbove(s, i) && Bridged(s, i) && IsLeastBelow(s, i, m) && m != i
    ensures OrderedAbove(Swapped(s, i, m), m) && Bridged(Swapped(s, i, m), m)
  {
    var t := Swapped(s, i, m);
    Child(m, i);
    forall j | 0 < j < |s| && Parent(j) != m ensures t[Parent(j)] <= t[j] {
      Child(j, i);
      if i > 0 { Child(i, Parent(i)); }
    }
    forall j | 0 < j < |s| && Parent(j) == m ensures t[Parent(m)] <= t[j] {
      Child(j, m);
    }
  }

  /** The last element takes the place of the root. */
  function Shrunk(s: seq<u32>): seq<u32>
    requires |s| > 0
  {
    Swapped(s, 0, |s| - 1)[..|s| - 1]
  }

  lemma RemoveLast(s: seq<u32>)
    requires IsHeap(s) && |s| > 0
    ensures OrderedAbove(Shrunk(s), 0) && Bridged(Shrunk(s), 0)
    ensures multiset(Shrunk(s)) == multiset(s) - multiset{s[0]}
  {
    var n := |s| - 1;
    var u := Swapped(s, 0, n);
    SwapKeepsElements(s, 0, n);
    assert u == u[..n] + [u[n]];
  }

  class BinHeap {
    const arr: array<u32>
    var size: nat

    ghost predicate Valid()
      reads this, arr
    {
      size <= arr.Length && IsHeap(arr[..size])
    }

    ghost function Elements(): multiset<u32>
      requires size <= arr.Length
      reads this, arr
    {
      multiset(arr[..size])
    }

    constructor (capacity: nat)
      requires capacity != 0
      ensures Valid() && Elements() == multiset{} && arr.Length == capacity && fresh(arr)
    {
      arr := new u32[capacity];
      size := 0;
    }

    /** array_swap. */
    method Swap(i: nat, j: nat)
      requires i < size <= arr.Length && j < size
      modifies arr
      ensures arr[..size] == Swapped(old(arr[..size]), i, j)
      ensures arr[size..] == old(arr[size..])
    {
      arr[i], arr[j] := arr[j], arr[i];
    }

    /** push_down: the element at an index moves towards the root. */
    method PushDown(start: nat)
      requires start < size <= arr.Length && OrderedBut(arr[..size], start) && Bridged(arr[..size], start)
      modifies arr
      ensures IsHeap(arr[..size]) && multiset(arr[..size]) == old(multiset(arr[..size]))
    {
      var i: nat := start;
      while i != 0
        invariant i < size && OrderedBut(arr[..size], i) && Bridged(arr[..size], i)
        invariant multiset(arr[..size]) == old(multiset(arr[..size]))
        decreases i
      {
        var next := Parent(i);
        ghost var s := arr[..size];
        if !(arr[i] < arr[next]) {
          assert s[Parent(i)] <= s[i];
          return;
        }
        SiftUpStep(s, i);
        SwapKeepsElements(s, i, next);
        Swap(i, next);
        i := next;
      }
    }

    /** binheap_insert: fails exactly when the heap is full, and then changes nothing. */
    method Insert(v: u32) returns (ok: bool)
      requires Valid()
      modifies this`size, arr
      ensures Valid()
      ensures ok <==> old(size) < arr.Length
      ensures Elements() == if ok then old(Elements()) + multiset{v} else old(Elements())
      ensures size == if ok then old(size) + 1 else old(size)
    {
      if size == arr.Length {
        return false;
      }
      ghost var s := arr[..size];
      arr[size] := v;
      size := size + 1;
      assert arr[..size] == s + [v];
      Appended(s, v);
      PushDown(size - 1);
      ok := true;
    }

    /** binheap_peek: the minimum, unless the heap is empty. */
    method Peek() returns (ok: bool, v: u32)
      requires Valid()
      ensures ok <==> size > 0
      ensures ok ==> IsLeast(v, Elements()) && v == arr[0]
    {
      if size == 0 {
        return false, 0;
      }
      ok, v := true, arr[0];
      LeastIsRoot(arr[..size]);
    }

    /** The smallest of the element at an index and its children, as array_min finds it. */
    method LeastBelow(i: nat) returns (m: nat)
      requires i < size <= arr.Length && 2 * i + 1 < size
      ensures IsLeastBelow(arr[..size], i, m)
    {
      var left := 2 * i + 1;
      m := if arr[left] < arr[i] then left else i;
      if left + 1 < size {
        m := if arr[left + 1] < arr[m] then left + 1 else m;
      }
    }

    /** The downward loop of binheap_pop. */
    method SiftDown()
      requires size <= arr.Length && OrderedAbove(arr[..size], 0) && Bridged(arr[..size], 0)
      modifies arr
      ensures IsHeap(arr[..size]) && multiset(arr[..size]) == old(multiset(arr[..size]))
    {
      var i := 0;
      while 2 * i + 1 < size
        invariant OrderedAbove(arr[..size], i) && Bridged(arr[..size], i)
        invariant multiset(arr[..size]) == old(multiset(arr[..size]))
        decreases size - i
      {
        ghost var s := arr[..size];
        var m := LeastBelow(i);
        if m == i {
          SiftDownEnds(s, i);
          return;
        }
        SiftDownStep(s, i, m);
        SwapKeepsElements(s, i, m);
        Swap(i, m);
        i := m;
      }
    }

    /** The last element takes the place of the root and the heap shrinks. */
    method RemoveRoot()
      requires Valid() && size > 0
      modifies this`size, arr
      ensures size == old(size) - 1
      ensures arr[..size] == Shrunk(old(arr[..size]))
    {
      ghost var s := arr[..size];
      Swap(0, size - 1);
      size := size - 1;
      assert arr[..size] == Shrunk(s);
    }

    /** binheap_pop: removes one minimum, unless the heap is empty. */
    method Pop() returns (ok: bool)
      requires Valid()
      modifies this`size, arr
      ensures Valid()
      ensures ok <==> old(size) > 0
      ensures ok ==> size == old(size) - 1 && IsLeast(old(arr[0]), old(Elements()))
      ensures ok ==> Elements() == old(Elements()) - multiset{old(arr[0])}
      ensures !ok ==> Elements() == old(Elements()) && size == old(size)
    {
      if size == 0 {
        return false;
      }
      LeastIsRoot(arr[..size]);
      RemoveLast(arr[..size]);
      RemoveRoot();
      SiftDown();
      ok := true;
    }
  }

  lemma Appended(s: seq<u32>, v: u32)
    requires IsHeap(s)
    ensures OrderedBut(s + [v], |s|) && Bridged(s + [v], |s|)
    ensures multiset(s + [v]) == multiset(s) + multiset{v}
  {
  }

  lemma LeastIsRoot(s: seq<u32>)
    requires IsHeap(s) && |s| > 0
    ensures IsLeast(s[0], multiset(s))
  {
    forall x | x in multiset(s) ensures s[0] <= x {
      var j :| 0 <= j < |s| && s[j] == x;
      RootIsLeast(s, j);
    }
  }

  ghost predicate Sorted(s: seq<u32>) {
    forall i, j :: 0 <= i < j < |s| ==> s[i] <= s[j]
  }

  ghost predicate AllFrom(limit: nat, m: multiset<u32>) {
    forall x :: x in m ==> limit <= x as int
  }

  ghost predicate AllBelow(s: seq<u32>, limit: nat) {
    forall i :: 0 <= i < |s| ==> s[i] as int < limit
  }

  /** No number popped so far is above a number still in the heap. */
  ghost predicate Below(popped: seq<u32>, rest: multiset<u32>) {
    forall i, y :: 0 <= i < |popped| && y in rest ==> popped[i] <= y
  }

  ghost predicate Drained(all: multiset<u32>, popped: seq<u32>, rest: multiset<u32>, limit: nat) {
    all == multiset(popped) + rest && Sorted(popped) && AllBelow(popped, limit) && Below(popped, rest)
  }

  lemma PopNext(all: multiset<u32>, popped: seq<u32>, rest: multiset<u32>, v: u32, limit: nat, popped': seq<u32>)
    requires Drained(all, popped, rest, limit) && IsLeast(v, rest) && v as int < limit && popped' == popped + [v]
    ensures Drained(all, popped', rest - multiset{v}, limit)
  {
    assert multiset(popped') == multiset(popped) + multiset{v};
  }

  /** One turn of the read-completion loop of progress_qp: the minimum is popped if it is below
      the limit. */
  method PopIfBelow(heap: BinHeap, limit: nat) returns (ok: bool, v: u32)
    requires heap.Valid()
    modifies heap`size, heap.arr
    ensures heap.Valid()
    ensures ok ==> v as int < limit && IsLeast(v, old(heap.Elements())) && heap.size == old(heap.size) - 1
    ensures ok ==> heap.Elements() == old(heap.Elements()) - multiset{v}
    ensures !ok ==> heap.Elements() == old(heap.Elements()) && AllFrom(limit, heap.Elements())
  {
    ok, v := heap.Peek();
    if ok && v as int < limit {
      var _ := heap.Pop();
    } else {
      ok := false;
    }
  }

  /** That loop: as long as the minimum is below the limit it is popped. The popped numbers come
      out in order, they are exactly the elements below the limit, and the others stay. */
  method PopBelow(heap: BinHeap, limit: nat) returns (popped: seq<u32>)
    requires heap.Valid()
    modifies heap`size, heap.arr
    ensures heap.Valid() && old(heap.Elements()) == multiset(popped) + heap.Elements()
    ensures Sorted(popped) && AllBelow(popped, limit) && AllFrom(limit, heap.Elements())
  {
    popped := [];
    while true
      invariant heap.Valid() && Drained(old(heap.Elements()), popped, heap.Elements(), limit)
      decreases heap.size
    {
      ghost var rest := heap.Elements();
      var ok, v := PopIfBelow(heap, limit);
      if !ok {
        return;
      }
      ghost var next := popped + [v];
      PopNext(old(heap.Elements()), popped, rest, v, limit, next);
      popped := popped + [v];
    }
  }

  /** Peeking and popping until nothing is left sorts the contents. */
  method Drain(heap: BinHeap) returns (popped: seq<u32>)
    requires heap.Valid()
    modifies heap`size, heap.arr
    ensures heap.Valid() && heap.size == 0 && Sorted(popped) && multiset(popped) == old(heap.Elements())
  {
    popped := PopBelow(heap, 0x1_0000_0000);
    EmptyOrBelow(heap.arr[..heap.size]);
  }

  lemma EmptyOrBelow(s: seq<u32>)
    ensures s == [] || !AllFrom(0x1_0000_0000, multiset(s))
  {
    if s != [] { assert s[0] in multiset(s); }
  }
}
