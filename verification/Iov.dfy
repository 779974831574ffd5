/** Gather and scatter over I/O vectors: memcpy_from_iov and memcpy_to_iov, specified by
    the flat byte sequence that an I/O vector denotes. */
module Iov {

  newtype byte = x: int | 0 <= x < 256

  /** The bytes of the first n elements, end to end. */
  function FlatTo(iov: seq<seq<byte>>, n: nat): seq<byte>
    requires n <= |iov|
  {
    if n == 0 then [] else FlatTo(iov, n - 1) + iov[n - 1]
  }

  /** The bytes of an I/O vector, end to end. */
  function Flat(iov: seq<seq<byte>>): seq<byte> {
    FlatTo(iov, |iov|)
  }

  /** The flat position of the first byte of element y. */
  function Base(iov: seq<seq<byte>>, y: nat): nat
    requires y <= |iov|
  {
    |FlatTo(iov, y)|
  }

  function Min(a: nat, b: nat): nat {
    if a <= b then a else b
  }

  /** buf with data written over it at a flat offset. */
  function Splice(buf: seq<byte>, off: nat, data: seq<byte>): (r: seq<byte>)
    requires off + |data| <= |buf|
    ensures |r| == |buf|
  {
    buf[..off] + data + buf[off + |data|..]
  }

  lemma SpliceAt(buf: seq<byte>, off: nat, data: seq<byte>, b: nat)
    requires off + |data| <= |buf| && b < |buf|
    ensures Splice(buf, off, data)[b] == if off <= b < off + |data| then data[b - off] else buf[b]
  {
  }

  /** Up to n bytes of s from an offset on. */
  function Slice(s: seq<byte>, n: nat, off: nat): seq<byte> {
    if off > |s| then [] else s[off..off + Min(n, |s| - off)]
  }

  /** How many of n bytes from position start on lie before position at. */
  function Done(at: nat, start: nat, n: nat): (pos: nat)
    ensures pos <= n
  {
    if at <= start then 0 else Min(at - start, n)
  }

  /** rte_memcpy of data into a buffer. */
  method Memcpy(dest: array<byte>, at: nat, data: seq<byte>)
    requires at + |data| <= dest.Length
    modifies dest
    ensures dest[..] == Splice(old(dest[..]), at, data)
  {
    forall i | 0 <= i < |data| {
      dest[at + i] := data[i];
    }
  }

  // ---- Gathering ----

  /** The first pos bytes have been copied from position start on, and the others are as they were. */
  ghost predicate Gathered(was: seq<byte>, now: seq<byte>, flat: seq<byte>, start: nat, pos: nat) {
    if pos == 0 then now == was
    else pos <= |was| && start + pos <= |flat| && now == flat[start..start + pos] + was[pos..]
  }

  lemma GatherMore(was: seq<byte>, now: seq<byte>, flat: seq<byte>, start: nat, pos: nat, piece: seq<byte>)
    requires Gathered(was, now, flat, start, pos) && pos + |piece| <= |now| && |piece| > 0
    requires start + pos + |piece| <= |flat| && piece == flat[start + pos..start + pos + |piece|]
    ensures Gathered(was, Splice(now, pos, piece), flat, start, pos + |piece|)
  {
  }

  lemma {:induction false} ElementIn(iov: seq<seq<byte>>, y: nat, n: nat)
    requires y < n <= |iov|
    ensures Base(iov, y) + |iov[y]| <= |FlatTo(iov, n)|
    ensures FlatTo(iov, n)[Base(iov, y)..Base(iov, y) + |iov[y]|] == iov[y]
    decreases n
  {
    if y < n - 1 { ElementIn(iov, y, n - 1); }
  }

  lemma PieceOfFlat(flat: seq<byte>, base: nat, elem: seq<byte>, from: nat, to: nat)
    requires base + |elem| <= |flat| && flat[base..base + |elem|] == elem && from <= to <= |elem|
    ensures elem[from..to] == flat[base + from..base + to]
  {
    var mid := flat[base..base + |elem|];
    assert forall j :: from <= j < to ==> mid[j] == flat[base + j];
  }

  /** The state of the gathering loop at element y. */
  ghost predicate Gathering(was: seq<byte>, now: seq<byte>, src: seq<seq<byte>>, start: nat, y: nat, pos: nat, prev: nat) {
    && y <= |src| && |now| == |was| && prev == Base(src, y) && pos == Done(prev, start, |was|)
    && Gathered(was, now, Flat(src), start, pos)
  }

  lemma GatherTakes(was: seq<byte>, now: seq<byte>, src: seq<seq<byte>>, start: nat, y: nat, pos: nat, prev: nat,
                    cur: nat, piece: seq<byte>, now': seq<byte>)
    requires Gathering(was, now, src, start, y, pos, prev) && y < |src| && pos < |now|
    requires prev <= start + pos < prev + |src[y]| && cur == Min(prev + |src[y]| - (start + pos), |now| - pos)
    requires piece == src[y][start + pos - prev..start + pos - prev + cur] && now' == Splice(now, pos, piece)
    ensures Gathering(was, now', src, start, y + 1, pos + cur, prev + |src[y]|)
  {
    ElementIn(src, y, |src|);
    PieceOfFlat(Flat(src), prev, src[y], start + pos - prev, start + pos - prev + cur);
    GatherMore(was, now, Flat(src), start, pos, piece);
  }

  /** One turn of the gathering loop: takes from element y what falls into the request. */
  method GatherElement(dest: array<byte>, src: seq<seq<byte>>, y: nat, pos: nat, offset: nat, prev: nat,
                       ghost was: seq<byte>, ghost start: nat)
    returns (pos': nat, offset': nat)
    requires y < |src| && pos < dest.Length && offset == start + pos
    requires Gathering(was, dest[..], src, start, y, pos, prev)
    modifies dest
    ensures offset' == start + pos' && Gathering(was, dest[..], src, start, y + 1, pos', prev + |src[y]|)
  {
    pos', offset' := pos, offset;
    if prev <= offset < prev + |src[y]| {
      var cur := Min(prev + |src[y]| - offset, dest.Length - pos);
      var piece := src[y][offset - prev..offset - prev + cur];
      ghost var now := dest[..];
      Memcpy(dest, pos, piece);
      pos', offset' := pos + cur, offset + cur;
      GatherTakes(was, now, src, start, y, pos, prev, cur, piece, dest[..]);
    }
  }

  lemma GatheredAll(was: seq<byte>, now: seq<byte>, flat: seq<byte>, start: nat, pos: nat)
    requires Gathered(was, now, flat, start, pos) && (pos == |was| || pos == Done(|flat|, start, |was|))
    ensures now == Splice(was, 0, Slice(flat, |was|, start))
  {
  }

  /** Fills dest with the bytes of src from a flat offset on; if src ends first, the rest of
      dest keeps its old contents. */
  method MemcpyFromIov(dest: array<byte>, src: seq<seq<byte>>, start: nat)
    modifies dest
    ensures dest[..] == Splice(old(dest[..]), 0, Slice(Flat(src), dest.Length, start))
  {
    ghost var was := dest[..];
    var pos: nat, prev: nat, offset: nat := 0, 0, start;
    var y: nat := 0;
    while pos < dest.Length && y < |src|
      invariant offset == start + pos && Gathering(was, dest[..], src, start, y, pos, prev)
      decreases |src| - y
    {
      pos, offset := GatherElement(dest, src, y, pos, offset, prev, was, start);
      prev := prev + |src[y]|;
      y := y + 1;
    }
    GatheredAll(was, dest[..], Flat(src), start, pos);
  }

  // ---- Scattering ----

  /** A stretch of bytes, at flat position base, after data has been written over it at off. */
  function Share(elem: seq<byte>, base: nat, data: seq<byte>, off: nat): (r: seq<byte>)
    ensures |r| == |elem|
  {
    seq(|elem|, k requires 0 <= k < |elem| =>
      if off <= base + k < off + |data| then data[base + k - off] else elem[k])
  }

  /** The first n elements, each with its share of the data. */
  function ScatterTo(bufs: seq<seq<byte>>, data: seq<byte>, off: nat, n: nat): (r: seq<seq<byte>>)
    requires n <= |bufs|
    ensures |r| == n && forall i {:trigger r[i]} :: 0 <= i < n ==> |r[i]| == |bufs[i]|
  {
    if n == 0 then [] else ScatterTo(bufs, data, off, n - 1) + [Share(bufs[n - 1], Base(bufs, n - 1), data, off)]
  }

  /** The scatter list after data has been written at a flat offset; what does not fit is lost. */
  function Scatter(bufs: seq<seq<byte>>, data: seq<byte>, off: nat): seq<seq<byte>> {
    ScatterTo(bufs, data, off, |bufs|)
  }

  lemma ShareConcat(a: seq<byte>, b: seq<byte>, base: nat, data: seq<byte>, off: nat)
    ensures Share(a + b, base, data, off) == Share(a, base, data, off) + Share(b, base + |a|, data, off)
  {
  }

  lemma {:induction false} FlatPrefix(s: seq<seq<byte>>, x: seq<byte>, n: nat)
    requires n <= |s|
    ensures FlatTo(s + [x], n) == FlatTo(s, n)
  {
    if n > 0 { FlatPrefix(s, x, n - 1); }
  }

  lemma {:induction false} FlatScatter(bufs: seq<seq<byte>>, data: seq<byte>, off: nat, n: nat)
    requires n <= |bufs|
    ensures FlatTo(ScatterTo(bufs, data, off, n), n) == Share(FlatTo(bufs, n), 0, data, off)
  {
    if n > 0 {
      var s, x := ScatterTo(bufs, data, off, n - 1), Share(bufs[n - 1], Base(bufs, n - 1), data, off);
      FlatScatter(bufs, data, off, n - 1);
      FlatPrefix(s, x, n - 1);
      ShareConcat(FlatTo(bufs, n - 1), bufs[n - 1], 0, data, off);
    }
  }

  lemma ShareIsSplice(buf: seq<byte>, data: seq<byte>, off: nat)
    requires off + |data| <= |buf|
    ensures Share(buf, 0, data, off) == Splice(buf, off, data)
  {
  }

  /** Scattering is one splice into the flat contents, whatever the element boundaries. */
  lemma ScatterIsSplice(bufs: seq<seq<byte>>, data: seq<byte>, off: nat)
    requires off + |data| <= |Flat(bufs)|
    ensures Flat(Scatter(bufs, data, off)) == Splice(Flat(bufs), off, data)
  {
    FlatScatter(bufs, data, off, |bufs|);
    ShareIsSplice(Flat(bufs), data, off);
  }

  // ---- Scattering in memory ----

  /** An element of a scatter list: len bytes of memory from base on. */
  datatype Sge = Sge(base: nat, len: nat)

  ghost predicate InMemory(iov: seq<Sge>, size: nat) {
    forall i :: 0 <= i < |iov| ==> iov[i].base + iov[i].len <= size
  }

  /** The flat position of the first byte of element y. */
  function Start(iov: seq<Sge>, y: nat): nat
    requires y <= |iov|
  {
    if y == 0 then 0 else Start(iov, y - 1) + iov[y - 1].len
  }

  function Elem(mem: seq<byte>, s: Sge): seq<byte>
    requires s.base + s.len <= |mem|
  {
    mem[s.base..s.base + s.len]
  }

  function Elems(mem: seq<byte>, iov: seq<Sge>): seq<seq<byte>>
    requires InMemory(iov, |mem|)
  {
    seq(|iov|, i requires 0 <= i < |iov| => Elem(mem, iov[i]))
  }

  /** The memory after the first n elements have got their share, one after the other. */
  ghost function WriteTo(mem: seq<byte>, iov: seq<Sge>, data: seq<byte>, off: nat, n: nat): (r: seq<byte>)
    requires n <= |iov| && InMemory(iov, |mem|)
    ensures |r| == |mem|
  {
    if n == 0 then mem else
      var m, s := WriteTo(mem, iov, data, off, n - 1), iov[n - 1];
      Splice(m, s.base, Share(Elem(m, s), Start(iov, n - 1), data, off))
  }

  ghost function Write(mem: seq<byte>, iov: seq<Sge>, data: seq<byte>, off: nat): seq<byte>
    requires InMemory(iov, |mem|)
  {
    WriteTo(mem, iov, data, off, |iov|)
  }

  /** A byte of the data goes to address b through an element at flat position at. */
  predicate Hits(s: Sge, at: nat, n: nat, off: nat, b: nat) {
    s.base <= b < s.base + s.len && off <= at + (b - s.base) < off + n
  }

  /** The byte at b is the one the data brings through the element, if it brings one. */
  ghost predicate WrittenBy(mem: seq<byte>, now: seq<byte>, s: Sge, at: nat, data: seq<byte>, off: nat, b: nat)
    requires b < |mem| == |now|
  {
    now[b] == if Hits(s, at, |data|, off, b) then data[at + (b - s.base) - off] else mem[b]
  }

  lemma ShareAt(mem: seq<byte>, s: Sge, at: nat, data: seq<byte>, off: nat, b: nat)
    requires s.base + s.len <= |mem| && b < |mem|
    ensures WrittenBy(mem, Splice(mem, s.base, Share(Elem(mem, s), at, data, off)), s, at, data, off, b)
  {
    SpliceAt(mem, s.base, Share(Elem(mem, s), at, data, off), b);
  }

  lemma ElementGetsShare(mem: seq<byte>, now: seq<byte>, s: Sge, at: nat, data: seq<byte>, off: nat)
    requires s.base + s.len <= |mem| == |now|
    requires forall b :: s.base <= b < s.base + s.len ==> WrittenBy(mem, now, s, at, data, off, b)
    ensures Elem(now, s) == Share(Elem(mem, s), at, data, off)
  {
    forall k | 0 <= k < s.len ensures Elem(now, s)[k] == Share(Elem(mem, s), at, data, off)[k] {
      assert WrittenBy(mem, now, s, at, data, off, s.base + k);
    }
  }

  ghost predicate HitBy(iov: seq<Sge>, y: nat, n: nat, off: nat, b: nat)
    requires y < |iov|
  {
    Hits(iov[y], Start(iov, y), n, off, b)
  }

  /** How many elements it takes to reach the last one, of the first k, that hits b. */
  ghost function LastHit(iov: seq<Sge>, k: nat, n: nat, off: nat, b: nat): (r: nat)
    requires k <= |iov|
    ensures r <= k && (r > 0 ==> HitBy(iov, r - 1, n, off, b))
    ensures forall y :: r <= y < k ==> !HitBy(iov, y, n, off, b)
  {
    if k == 0 then 0 else if HitBy(iov, k - 1, n, off, b) then k else LastHit(iov, k - 1, n, off, b)
  }

  /** The byte at b is what the last of the first k elements to hit it brought, if one did. */
  ghost predicate Written(mem: seq<byte>, now: seq<byte>, iov: seq<Sge>, k: nat, data: seq<byte>, off: nat, b: nat)
    requires k <= |iov| && b < |mem| == |now|
  {
    var r := LastHit(iov, k, |data|, off, b);
    if r == 0 then now[b] == mem[b] else WrittenBy(mem, now, iov[r - 1], Start(iov, r - 1), data, off, b)
  }

  lemma WrittenNext(mem: seq<byte>, now: seq<byte>, now': seq<byte>, iov: seq<Sge>, k: nat, data: seq<byte>, off: nat, b: nat)
    requires 0 < k <= |iov| && b < |mem| == |now| == |now'| && Written(mem, now, iov, k - 1, data, off, b)
    requires WrittenBy(now, now', iov[k - 1], Start(iov, k - 1), data, off, b)
    ensures Written(mem, now', iov, k, data, off, b)
  {
  }

  /** However the elements overlap: a byte of memory is what the last element to hit it brought, and as
      before if none does. */
  lemma {:induction false} WriteAt(mem: seq<byte>, iov: seq<Sge>, data: seq<byte>, off: nat, k: nat, b: nat)
    requires k <= |iov| && InMemory(iov, |mem|) && b < |mem|
    ensures Written(mem, WriteTo(mem, iov, data, off, k), iov, k, data, off, b)
  {
    if k > 0 {
      WriteAt(mem, iov, data, off, k - 1, b);
      var m := WriteTo(mem, iov, data, off, k - 1);
      ShareAt(m, iov[k - 1], Start(iov, k - 1), data, off, b);
      WrittenNext(mem, m, WriteTo(mem, iov, data, off, k), iov, k, data, off, b);
    }
  }

  ghost predicate Disjoint(iov: seq<Sge>) {
    forall i, j :: 0 <= i < j < |iov| ==> iov[i].base + iov[i].len <= iov[j].base || iov[j].base + iov[j].len <= iov[i].base
  }

  lemma {:induction false} StartIsBase(mem: seq<byte>, iov: seq<Sge>, y: nat)
    requires y <= |iov| && InMemory(iov, |mem|)
    ensures Start(iov, y) == Base(Elems(mem, iov), y)
  {
    if y > 0 { StartIsBase(mem, iov, y - 1); }
  }

  lemma {:induction false} ScatterToAt(bufs: seq<seq<byte>>, data: seq<byte>, off: nat, n: nat, i: nat)
    requires i < n <= |bufs|
    ensures ScatterTo(bufs, data, off, n)[i] == Share(bufs[i], Base(bufs, i), data, off)
  {
    if i < n - 1 { ScatterToAt(bufs, data, off, n - 1, i); }
  }

  /** A byte of an element that shares none with another is hit by that element or by none. */
  lemma OnlyOneHits(iov: seq<Sge>, n: nat, off: nat, i: nat, b: nat)
    requires Disjoint(iov) && i < |iov| && iov[i].base <= b < iov[i].base + iov[i].len
    ensures LastHit(iov, |iov|, n, off, b) == if HitBy(iov, i, n, off, b) then i + 1 else 0
  {
    var r := LastHit(iov, |iov|, n, off, b);
    if r > 0 { assert HitBy(iov, r - 1, n, off, b); }
  }

  lemma OneBrings(mem: seq<byte>, now: seq<byte>, iov: seq<Sge>, data: seq<byte>, off: nat, i: nat, b: nat)
    requires i < |iov| && b < |mem| == |now| && Written(mem, now, iov, |iov|, data, off, b)
    requires LastHit(iov, |iov|, |data|, off, b) == if HitBy(iov, i, |data|, off, b) then i + 1 else 0
    ensures WrittenBy(mem, now, iov[i], Start(iov, i), data, off, b)
  {
    assert HitBy(iov, i, |data|, off, b) == Hits(iov[i], Start(iov, i), |data|, off, b);
  }

  /** If no two elements share memory, each ends with its share of the data. */
  lemma WriteIsScatter(mem: seq<byte>, iov: seq<Sge>, data: seq<byte>, off: nat)
    requires InMemory(iov, |mem|) && Disjoint(iov)
    ensures Elems(Write(mem, iov, data, off), iov) == Scatter(Elems(mem, iov), data, off)
  {
    var now := Write(mem, iov, data, off);
    forall i | 0 <= i < |iov| ensures Elems(now, iov)[i] == Scatter(Elems(mem, iov), data, off)[i] {
      forall b | iov[i].base <= b < iov[i].base + iov[i].len ensures WrittenBy(mem, now, iov[i], Start(iov, i), data, off, b) {
        WriteAt(mem, iov, data, off, |iov|, b);
        OnlyOneHits(iov, |data|, off, i, b);
        OneBrings(mem, now, iov, data, off, i, b);
      }
      ElementGetsShare(mem, now, iov[i], Start(iov, i), data, off);
      StartIsBase(mem, iov, i);
      ScatterToAt(Elems(mem, iov), data, off, |iov|, i);
    }
  }

  /** The state of the scattering loop at element y. */
  ghost predicate Scattering(was: seq<byte>, now: seq<byte>, iov: seq<Sge>, src: seq<byte>, start: nat,
                             y: nat, pos: nat, prev: nat)
  {
    && InMemory(iov, |was|) && y <= |iov| && now == WriteTo(was, iov, src, start, y)
    && prev == Start(iov, y) && pos == Done(prev, start, |src|)
  }

  /** The piece that falls into an element is its whole share. */
  lemma SharePiece(elem: seq<byte>, base: nat, data: seq<byte>, off: nat, pos: nat, cur: nat)
    requires pos == Done(base, off, |data|) && pos < |data| && base <= off + pos < base + |elem|
    requires cur == Min(base + |elem| - (off + pos), |data| - pos)
    ensures Splice(elem, off + pos - base, data[pos..pos + cur]) == Share(elem, base, data, off)
    ensures pos + cur == Done(base + |elem|, off, |data|)
  {
  }

  lemma NoShare(elem: seq<byte>, base: nat, data: seq<byte>, off: nat, pos: nat)
    requires pos == Done(base, off, |data|) && (pos == |data| || !(base <= off + pos < base + |elem|))
    ensures Share(elem, base, data, off) == elem && pos == Done(base + |elem|, off, |data|)
  {
  }

  /** Splicing the piece into memory gives the element its share. */
  lemma PieceInMemory(mem: seq<byte>, s: Sge, at: nat, piece: seq<byte>, share: seq<byte>)
    requires s.base + s.len <= |mem| && at + |piece| <= s.len && share == Splice(Elem(mem, s), at, piece)
    ensures Splice(mem, s.base + at, piece) == Splice(mem, s.base, share)
  {
  }

  lemma SpliceSame(mem: seq<byte>, s: Sge)
    requires s.base + s.len <= |mem|
    ensures Splice(mem, s.base, Elem(mem, s)) == mem
  {
  }

  /** One turn of the scattering loop: element y gets its share. */
  method ScatterElement(mem: array<byte>, iov: seq<Sge>, src: seq<byte>, y: nat, pos: nat, offset: nat, prev: nat,
                        ghost was: seq<byte>, ghost start: nat)
    returns (pos': nat, offset': nat)
    requires y < |iov| && pos < |src| && offset == start + pos
    requires Scattering(was, mem[..], iov, src, start, y, pos, prev)
    modifies mem
    ensures offset' == start + pos' && Scattering(was, mem[..], iov, src, start, y + 1, pos', prev + iov[y].len)
  {
    pos', offset' := pos, offset;
    ghost var elem := Elem(mem[..], iov[y]);
    if prev <= offset < prev + iov[y].len {
      var cur := Min(prev + iov[y].len - offset, |src| - pos);
      SharePiece(elem, prev, src, start, pos, cur);
      PieceInMemory(mem[..], iov[y], offset - prev, src[pos..pos + cur], Share(elem, prev, src, start));
      Memcpy(mem, iov[y].base + (offset - prev), src[pos..pos + cur]);
      pos', offset' := pos + cur, offset + cur;
    } else {
      NoShare(elem, prev, src, start, pos);
      SpliceSame(mem[..], iov[y]);
    }
  }

  /** When the data is used up the memory stays as it is. */
  lemma {:induction false} WriteRest(was: seq<byte>, iov: seq<Sge>, src: seq<byte>, start: nat, y: nat, n: nat)
    requires y <= n <= |iov| && InMemory(iov, |was|) && Done(Start(iov, y), start, |src|) == |src|
    ensures Start(iov, y) <= Start(iov, n) && WriteTo(was, iov, src, start, n) == WriteTo(was, iov, src, start, y)
    decreases n
  {
    if y < n {
      WriteRest(was, iov, src, start, y, n - 1);
      var m, s := WriteTo(was, iov, src, start, n - 1), iov[n - 1];
      NoShare(Elem(m, s), Start(iov, n - 1), src, start, |src|);
      SpliceSame(m, s);
    }
  }

  /** Scatters src over the elements, in place, from a flat offset on. */
  method MemcpyToIov(mem: array<byte>, iov: seq<Sge>, src: seq<byte>, start: nat)
    requires InMemory(iov, mem.Length)
    modifies mem
    ensures mem[..] == Write(old(mem[..]), iov, src, start)
  {
    ghost var was := mem[..];
    var pos: nat, prev: nat, offset: nat := 0, 0, start;
    var y: nat := 0;
    while pos < |src| && y < |iov|
      invariant offset == start + pos && Scattering(was, mem[..], iov, src, start, y, pos, prev)
      decreases |iov| - y
    {
      pos, offset := ScatterElement(mem, iov, src, y, pos, offset, prev, was, start);
      prev := prev + iov[y].len;
      y := y + 1;
    }
    if y < |iov| {
      WriteRest(was, iov, src, start, y, |iov|);
    }
  }
}
