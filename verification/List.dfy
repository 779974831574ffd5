/** The intrusive circular doubly linked list that holds the queue entries. */
module List {

  class ListNode {
    var next: ListNode
    var prev: ListNode

    /** list_node_init. */
    constructor ()
      ensures Ring([this])
    {
      next := this;
      prev := this;
    }
  }

  predicate NoDup(s: seq<ListNode>) {
    forall i, j :: 0 <= i < j < |s| ==> s[i] != s[j]
  }

  ghost predicate Linked(a: ListNode, b: ListNode)
    reads a, b
  {
    a.next == b && b.prev == a
  }

  /** The node that follows position i, going round. */
  function After(s: seq<ListNode>, i: nat): ListNode
    requires i < |s|
  {
    if i + 1 < |s| then s[i + 1] else s[0]
  }

  /** The nodes of s, in this order, form one consistent doubly linked ring. A list with head h
      and entries xs is Ring([h] + xs). */
  ghost predicate Ring(s: seq<ListNode>)
    reads s
  {
    |s| > 0 && NoDup(s) && forall i :: 0 <= i < |s| ==> Linked(s[i], After(s, i))
  }

  function Inserted(s: seq<ListNode>, i: nat, n: ListNode): seq<ListNode>
    requires i <= |s|
  {
    s[..i] + [n] + s[i..]
  }

  function Removed(s: seq<ListNode>, i: nat): seq<ListNode>
    requires i < |s|
  {
    s[..i] + s[i + 1..]
  }

  /** Every link of s holds but the one that leaves position k. */
  ghost predicate Opened(s: seq<ListNode>, k: nat)
    reads s
  {
    NoDup(s) && forall i :: 0 <= i < |s| && i != k ==> Linked(s[i], After(s, i))
  }

  lemma Spliced(s: seq<ListNode>, i: nat, n: ListNode)
    requires i < |s| && Opened(s, i) && n !in s
    requires Linked(s[i], n) && Linked(n, After(s, i))
    ensures Ring(Inserted(s, i + 1, n))
  {
  }

  /** list_add_after: the new node follows p, and only the two links around it change. */
  method AddAfter(p: ListNode, n: ListNode, ghost s: seq<ListNode>, ghost i: nat)
    requires Ring(s) && i < |s| && s[i] == p && n !in s
    modifies n, p`next, p.next`prev
    ensures Ring(Inserted(s, i + 1, n))
  {
    n.next := p.next;
    n.prev := p;
    p.next.prev := n;
    p.next := n;
    Spliced(s, i, n);
  }

  /** list_add: the new node is the first entry. */
  method Add(h: ListNode, n: ListNode, ghost xs: seq<ListNode>)
    requires Ring([h] + xs) && n !in [h] + xs
    modifies n, h`next, h.next`prev
    ensures Ring([h, n] + xs)
  {
    AddAfter(h, n, [h] + xs, 0);
    assert Inserted([h] + xs, 1, n) == [h, n] + xs;
  }

  /** list_add_before: the new node precedes p. Before the first node of the ring is after its
      last one. */
  method AddBefore(p: ListNode, n: ListNode, ghost s: seq<ListNode>, ghost i: nat)
    requires Ring(s) && i < |s| && s[i] == p && n !in s
    modifies n, p`prev, p.prev`next
    ensures Ring(Inserted(s, if i == 0 then |s| else i, n))
  {
    ghost var k := if i == 0 then |s| - 1 else i - 1;
    assert Linked(s[k], After(s, k));
    n.next := p;
    n.prev := p.prev;
    p.prev.next := n;
    p.prev := n;
    Spliced(s, k, n);
  }

  /** list_add_tail: the new node is the last entry. */
  method AddTail(h: ListNode, n: ListNode, ghost xs: seq<ListNode>)
    requires Ring([h] + xs) && n !in [h] + xs
    modifies n, h`prev, h.prev`next
    ensures Ring([h] + xs + [n])
  {
    AddBefore(h, n, [h] + xs, 0);
    assert Inserted([h] + xs, 1 + |xs|, n) == [h] + xs + [n];
  }

  /** list_empty. */
  method Empty(h: ListNode, ghost xs: seq<ListNode>) returns (r: bool)
    requires Ring([h] + xs)
    ensures r <==> xs == []
  {
    ghost var s := [h] + xs;
    assert Linked(s[0], After(s, 0));
    r := h.next == h;
  }

  /** list_del: the ring closes over the node, which keeps its own links. */
  method Del(n: ListNode, ghost s: seq<ListNode>, ghost i: nat)
    requires Ring(s) && i < |s| && s[i] == n
    modifies n.next`prev, n.prev`next
    ensures if |s| == 1 then Ring(s) else Ring(Removed(s, i)) && unchanged(n)
  {
    assert i == 0 ==> After(s, |s| - 1) == n;
    assert i > 0 ==> After(s, i - 1) == n;
    n.next.prev := n.prev;
    n.prev.next := n.next;
  }

  /** list_del_init: the node is then a ring of its own. */
  method DelInit(n: ListNode, ghost s: seq<ListNode>, ghost i: nat)
    requires Ring(s) && i < |s| && s[i] == n
    modifies n, n.next`prev, n.prev`next
    ensures Ring([n]) && (|s| > 1 ==> Ring(Removed(s, i)))
  {
    Del(n, s, i);
    n.next, n.prev := n, n;
  }

  /** list_swap: the new node takes the place of the old one, provided the old one is not alone.
      A lone node stays, and the new one is linked behind it. */
  method Swap(o: ListNode, n: ListNode, ghost s: seq<ListNode>, ghost i: nat)
    requires Ring(s) && i < |s| && s[i] == o && n !in s
    modifies n, o.next`prev, o.prev`next
    ensures if |s| == 1 then Ring([o, n]) else Ring(s[i := n]) && unchanged(o)
  {
    assert i == 0 ==> After(s, |s| - 1) == o;
    assert i > 0 ==> After(s, i - 1) == o;
    n.next, n.prev := o.next, o.prev;
    n.next.prev := n;
    n.prev.next := n;
  }

  /** list_pop: takes the first entry off, or returns null for an empty list. */
  method Pop(h: ListNode, ghost xs: seq<ListNode>) returns (n: ListNode?)
    requires Ring([h] + xs)
    modifies h`next, h.next.next`prev
    ensures if xs == [] then n == null && unchanged(h) else n == xs[0] && Ring([h] + xs[1..])
  {
    var empty := Empty(h, xs);
    if empty {
      return null;
    }
    ghost var s := [h] + xs;
    assert Linked(s[0], After(s, 0));
    n := h.next;
    Del(n, s, 1);
    assert Removed(s, 1) == [h] + xs[1..];
  }

  predicate Apart(t: seq<ListNode>, f: seq<ListNode>) {
    forall i, j :: 0 <= i < |t| && 0 <= j < |f| ==> t[i] != f[j]
  }

  /** A chain of distinct nodes whose inner links agree in both directions. */
  ghost predicate Chain(s: seq<ListNode>)
    reads s
  {
    |s| > 0 && NoDup(s) && forall i :: 0 <= i < |s| - 1 ==> Linked(s[i], s[i + 1])
  }

  lemma Cut(s: seq<ListNode>)
    requires Ring(s)
    ensures Chain(s) && Linked(s[|s| - 1], s[0])
  {
  }

  lemma Joined(t: seq<ListNode>, f: seq<ListNode>)
    requires Chain(t) && Chain(f) && Apart(t, f) && Linked(t[|t| - 1], f[0])
    ensures Chain(t + f)
  {
  }

  lemma Closes(s: seq<ListNode>)
    requires Chain(s) && Linked(s[|s| - 1], s[0])
    ensures Ring(s)
  {
  }

  /** list_append_list: all of from goes behind the last entry of to, in order, and from is left
      empty; either or both may be empty to begin with. */
  method AppendList(to: ListNode, from: ListNode, ghost ys: seq<ListNode>, ghost xs: seq<ListNode>)
    requires Ring([to] + ys) && Ring([from] + xs) && Apart([to] + ys, [from] + xs)
    modifies to`prev, to.prev`next, from, from.prev`next, from.next`prev
    ensures Ring([to] + ys + xs) && Ring([from])
  {
    ghost var t, f := [to] + ys, [from] + xs;
    ghost var all := t + f;
    assert all == t + f + [] && t + xs + [] == t + xs;
    WithoutHead(t, from, xs, [], all);
    SewBehind(to, from, t, f);
    DelInit(from, all, |t|);
  }

  lemma WithoutHead(a: seq<ListNode>, from: ListNode, xs: seq<ListNode>, b: seq<ListNode>, all: seq<ListNode>)
    requires a != [] && all == a + ([from] + xs) + b
    ensures |a| < |all| && |all| > 1 && all[|a|] == from && Removed(all, |a|) == a + xs + b
  {
  }

  method SewBehind(to: ListNode, from: ListNode, ghost t: seq<ListNode>, ghost f: seq<ListNode>)
    requires Ring(t) && Ring(f) && Apart(t, f) && t[0] == to && f[0] == from
    modifies to`prev, to.prev`next, from`prev, from.prev`next
    ensures Ring(t + f)
    ensures from.prev == old(to.prev) && from.next == if |f| == 1 then to else old(from.next)
  {
    Cut(t);
    Cut(f);
    var fromTail := from.prev;
    var toTail := to.prev;
    to.prev := fromTail;
    fromTail.next := to;
    toTail.next := from;
    from.prev := toTail;
    Joined(t, f);
    Closes(t + f);
  }

  /** list_prepend_list: all of from goes before the first entry of to, in order. */
  method PrependList(to: ListNode, from: ListNode, ghost ys: seq<ListNode>, ghost xs: seq<ListNode>)
    requires Ring([to] + ys) && Ring([from] + xs) && Apart([to] + ys, [from] + xs)
    modifies to`next, to.next`prev, from, from.prev`next, from.next`prev
    ensures Ring([to] + xs + ys) && Ring([from])
  {
    ghost var f := [from] + xs;
    ghost var all := [to] + f + ys;
    WithoutHead([to], from, xs, ys, all);
    SewBefore(to, from, ys, f);
    DelInit(from, all, 1);
  }

  ghost predicate ChainIfAny(s: seq<ListNode>)
    reads s
  {
    s == [] || Chain(s)
  }

  /** The link from a to b would touch no inner link of the chain. */
  predicate Outside(a: ListNode, b: ListNode, s: seq<ListNode>) {
    (forall i :: 0 <= i < |s| - 1 ==> s[i] != a) && (forall i :: 0 < i < |s| ==> s[i] != b)
  }

  method Link(a: ListNode, b: ListNode, ghost s: seq<ListNode>, ghost u: seq<ListNode>)
    requires ChainIfAny(s) && ChainIfAny(u) && Outside(a, b, s) && Outside(a, b, u)
    modifies a`next, b`prev
    ensures a.next == b && b.prev == a && ChainIfAny(s) && ChainIfAny(u)
  {
    a.next := b;
    b.prev := a;
  }

  method SewBefore(to: ListNode, from: ListNode, ghost ys: seq<ListNode>, ghost f: seq<ListNode>)
    requires Ring([to] + ys) && Ring(f) && Apart([to] + ys, f) && f[0] == from
    modifies to`next, to.next`prev, from`prev, from.prev`next
    ensures Ring([to] + f + ys)
    ensures from.prev == to && from.next == if |f| == 1 then old(to.next) else old(from.next)
  {
    Ends(to, ys);
    EndsApart(to, ys, f);
    Cut(f);
    var fromTail := from.prev;
    var toHead := to.next;
    Link(to, from, f, ys);
    Link(fromTail, toHead, f, ys);
    SewnBefore(to, f, ys);
  }

  lemma Ends(to: ListNode, ys: seq<ListNode>)
    requires Ring([to] + ys)
    ensures ChainIfAny(ys) && NoDup([to] + ys) && to !in ys
    ensures to.next == (if ys == [] then to else ys[0]) && (ys != [] ==> Linked(ys[|ys| - 1], to))
    ensures forall i :: 0 < i < |ys| ==> ys[i] != ys[0]
  {
    var t := [to] + ys;
    Cut(t);
    assert t[0] == to && forall i :: 0 <= i < |ys| ==> ys[i] == t[i + 1];
  }

  lemma EndsApart(to: ListNode, ys: seq<ListNode>, f: seq<ListNode>)
    requires Apart([to] + ys, f)
    ensures to !in f && forall i, j :: 0 <= i < |ys| && 0 <= j < |f| ==> ys[i] != f[j]
  {
    var t := [to] + ys;
    assert t[0] == to && forall i :: 0 <= i < |ys| ==> ys[i] == t[i + 1];
  }

  lemma SewnBefore(to: ListNode, f: seq<ListNode>, ys: seq<ListNode>)
    requires Chain(f) && Apart([to] + ys, f) && NoDup([to] + ys) && Linked(to, f[0])
    requires if ys == [] then Linked(f[|f| - 1], to)
             else Chain(ys) && Linked(f[|f| - 1], ys[0]) && Linked(ys[|ys| - 1], to)
    ensures Ring([to] + f + ys)
  {
    var t := [to] + ys;
    assert forall i :: 0 <= i < |ys| ==> ys[i] == t[i + 1];
    assert t[0] == to;
    Joined([to], f);
    if ys == [] {
      assert [to] + f + ys == [to] + f;
    } else {
      Joined([to] + f, ys);
    }
    Closes([to] + f + ys);
  }

  ghost predicate Closed(g: set<ListNode>)
    reads g
  {
    forall x :: x in g ==> x.next in g
  }

  /** A ring that starts at the same node runs along the chain. */
  lemma {:induction false} RingFollows(t: seq<ListNode>, s: seq<ListNode>, k: nat)
    requires Ring(t) && Chain(s) && t[0] == s[0] && k < |s|
    ensures k < |t| && t[k] == s[k]
    decreases k
  {
    if k > 0 {
      RingFollows(t, s, k - 1);
      assert Linked(t[k - 1], After(t, k - 1)) && Linked(s[k - 1], s[k]);
    }
  }

  /** list_check_node: on every finite closed graph the walk ends, also on corrupt and rho-shaped
      ones, and the node is returned exactly if it lies on a consistent doubly linked ring. */
  method CheckNode(node: ListNode, ghost g: set<ListNode>) returns (r: ListNode?)
    requires node in g && Closed(g)
    ensures r == node || r == null
    ensures r == node <==> exists s: seq<ListNode> :: Ring(s) && s[0] == node
  {
    var p, n := node, node.next;
    ghost var s := [node];
    ghost var left := g - {node};
    while n != node
      invariant Chain(s) && s[0] == node && s[|s| - 1] == p && n == p.next && n in g
      invariant forall x :: x in g ==> x in left || x in s
      decreases left
    {
      if n.prev != p {
        NoRing(s);
        return null;
      }
      Unvisited(s, n);
      left := left - {n};
      s := s + [n];
      p, n := n, n.next;
    }
    if node.prev != p {
      NoRing(s);
      return null;
    }
    assert Ring(s);
    r := node;
  }

  lemma Unvisited(s: seq<ListNode>, n: ListNode)
    requires Chain(s) && n != s[0] && Linked(s[|s| - 1], n)
    ensures n !in s && Chain(s + [n])
  {
    forall j | 0 < j < |s|
      ensures s[j] != n
    {
      assert Linked(s[j - 1], s[j]);
    }
  }

  /** If the walk finds a backward link that does not agree, no ring goes through its start. */
  lemma NoRing(s: seq<ListNode>)
    requires Chain(s) && s[|s| - 1].next.prev != s[|s| - 1]
    ensures !exists t: seq<ListNode> :: Ring(t) && t[0] == s[0]
  {
    forall t: seq<ListNode> | |t| > 0 && t[0] == s[0]
      ensures !Ring(t)
    {
      if Ring(t) {
        RingBacks(t, s);
        assert false;
      }
    }
  }

  lemma RingBacks(t: seq<ListNode>, s: seq<ListNode>)
    requires Ring(t) && Chain(s) && t[0] == s[0]
    ensures s[|s| - 1].next.prev == s[|s| - 1]
  {
    RingFollows(t, s, |s| - 1);
    assert Linked(t[|s| - 1], After(t, |s| - 1));
  }
}
