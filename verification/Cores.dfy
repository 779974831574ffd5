/** The allocator of logical cores in urdmad: a bitmap of free cores, and one bitmap per process. */
module Cores {

  /** A 32-bit word by its bits, the lowest first. */
  type Word = w: seq<bool> | |w| == 32 witness seq(32, _ => false)

  const ZERO: Word := seq(32, _ => false)

  /** The bit positions set in a word. */
  function Set(w: Word): set<nat> {
    set k: nat | k < 32 && w[k]
  }

  /** The core numbers in a bitmap: bit k of word j is core 32 * j + k. */
  function CoresOf(s: seq<Word>): set<nat> {
    set c: nat | c < 32 * |s| && c % 32 in Set(s[c / 32])
  }

  /** The position of the lowest bit that is set, from a given one on: rte_bsf32. */
  function Bsf32(w: Word, k: nat := 0): (r: nat)
    requires exists j :: k <= j < 32 && w[j]
    ensures r in Set(w) && k <= r && forall j :: j in Set(w) && k <= j ==> r <= j
    decreases 32 - k
  {
    if w[k] then k else Bsf32(w, k + 1)
  }

  lemma ClearCore(s: seq<Word>, j: nat, k: nat)
    requires j < |s| && k < 32 && s[j][k]
    ensures 32 * j + k in CoresOf(s) && CoresOf(s[j := s[j][k := false]]) == CoresOf(s) - {32 * j + k}
  {
  }

  lemma SetCore(s: seq<Word>, j: nat, k: nat)
    requires j < |s| && k < 32
    ensures CoresOf(s[j := s[j][k := true]]) == CoresOf(s) + {32 * j + k}
  {
  }

  /** What is left of a bitmap after the lowest cores were taken from it. */
  ghost predicate LowestTaken(had: set<nat>, left: set<nat>) {
    left <= had && forall c, d :: c in had - left && d in left ==> c < d
  }

  lemma TakeLowest(had: set<nat>, left: set<nat>, c: nat)
    requires LowestTaken(had, left) && c in left && forall d :: d in left ==> c <= d
    ensures LowestTaken(had, left - {c})
  {
    forall x, d | x in had - (left - {c}) && d in left - {c} ensures x < d {
      if x != c { assert x in had - left; }
    }
  }

  lemma SomeSet(w: Word)
    ensures w == ZERO || exists k :: 0 <= k < 32 && w[k]
  {
  }

  class CoreAllocator {
    const mask: array<Word>
    var avail: nat

    ghost predicate Valid()
      reads this, mask
    {
      avail == |CoresOf(mask[..])|
    }

    /** init_core_mask: the cores that are off, up to the first one that was not detected. */
    constructor (words: nat, detected: seq<bool>, off: seq<bool>)
      requires |detected| == |off| == 32 * words
      ensures Valid() && fresh(mask) && mask.Length == words
      ensures forall c: nat :: c in CoresOf(mask[..]) <==>
        c < 32 * words && off[c] && forall d :: 0 <= d <= c ==> detected[d]
    {
      mask := new Word[words](_ => ZERO);
      avail := 0;
      new;
      var i := 0;
      while i < 32 * words && detected[i]
        invariant 0 <= i <= 32 * words && Valid()
        invariant forall d :: 0 <= d < i ==> detected[d]
        invariant forall c: nat :: c in CoresOf(mask[..]) <==> c < i && off[c]
      {
        if off[i] {
          var j, k := i / 32, i % 32;
          ghost var s := mask[..];
          SetCore(s, j, k);
          mask[j] := mask[j][k := true];
          assert mask[..] == s[j := s[j][k := true]];
          avail := avail + 1;
        }
        i := i + 1;
      }
    }

    /** The inner scan of reserve_cores: the next word with a free core. It never leaves the array,
        because some core is free. */
    method NextWord(from: nat) returns (j: nat)
      requires from <= mask.Length && CoresOf(mask[..]) != {}
      requires forall c :: c in CoresOf(mask[..]) ==> 32 * from <= c
      ensures j < mask.Length && mask[j] != ZERO
      ensures forall c :: c in CoresOf(mask[..]) ==> 32 * j <= c
    {
      ghost var c :| c in CoresOf(mask[..]);
      j := from;
      while mask[j] == ZERO
        invariant j <= c / 32
        invariant forall c :: c in CoresOf(mask[..]) ==> 32 * j <= c
        decreases c - 32 * j
      {
        j := j + 1;
      }
    }

    /** The lowest free core goes from the free bitmap to the caller's. */
    method TakeFrom(j: nat, out: array<Word>) returns (ghost c: nat)
      requires out != mask && j < mask.Length == out.Length && mask[j] != ZERO
      requires forall c :: c in CoresOf(mask[..]) ==> 32 * j <= c
      modifies mask, out
      ensures c in old(CoresOf(mask[..])) && c >= 32 * j
      ensures forall d :: d in old(CoresOf(mask[..])) ==> c <= d
      ensures CoresOf(mask[..]) == old(CoresOf(mask[..])) - {c}
      ensures CoresOf(out[..]) == old(CoresOf(out[..])) + {c}
    {
      ghost var s, t := mask[..], out[..];
      SomeSet(mask[j]);
      var k := Bsf32(mask[j]);
      c := 32 * j + k;
      ClearCore(s, j, k);
      SetCore(t, j, k);
      mask[j] := mask[j][k := false];
      out[j] := out[j][k := true];
      assert mask[..] == s[j := s[j][k := false]];
      assert out[..] == t[j := t[j][k := true]];
      forall d | d in CoresOf(s) ensures c <= d {
        if d / 32 == j { assert d % 32 in Set(s[j]); }
      }
    }

    /** reserve_cores: moves the lowest count free cores to the caller's bitmap, or none if there are
        not enough. */
    method Reserve(count: nat, out: array<Word>) returns (ok: bool)
      requires Valid() && out != mask && out.Length == mask.Length
      modifies this`avail, mask, out
      ensures Valid() && (ok <==> count <= old(avail))
      ensures ok ==> avail == old(avail) - count
      ensures ok ==> LowestTaken(old(CoresOf(mask[..])), CoresOf(mask[..]))
      ensures ok ==> CoresOf(out[..]) == old(CoresOf(out[..])) + (old(CoresOf(mask[..])) - CoresOf(mask[..]))
      ensures !ok ==> unchanged(this) && unchanged(mask) && unchanged(out)
    {
      if count > avail {
        return false;
      }
      ghost var had := CoresOf(mask[..]);
      var i, j := 0, 0;
      while i < count
        invariant 0 <= i <= count && 0 <= j <= mask.Length && avail == old(avail)
        invariant |CoresOf(mask[..])| == avail - i
        invariant LowestTaken(had, CoresOf(mask[..]))
        invariant CoresOf(out[..]) == old(CoresOf(out[..])) + (had - CoresOf(mask[..]))
        invariant forall c :: c in CoresOf(mask[..]) ==> 32 * j <= c
      {
        j := NextWord(j);
        ghost var left := CoresOf(mask[..]);
        ghost var c := TakeFrom(j, out);
        TakeLowest(had, left, c);
        i := i + 1;
      }
      avail := avail - count;
      ok := true;
    }

    /** The inner loop of return_lcores: the cores of one word go back one by one. */
    method ReturnWord(i: nat, w: Word)
      requires Valid() && i < mask.Length && Set(mask[i]) !! Set(w)
      modifies this`avail, mask
      ensures Valid()
      ensures CoresOf(mask[..]) == old(CoresOf(mask[..])) + CoresIn(i, w)
      ensures forall j :: 0 <= j < mask.Length && j != i ==> mask[j] == old(mask[j])
    {
      var tmp := w;
      while tmp != ZERO
        invariant Valid() && Set(tmp) <= Set(w) && Set(mask[i]) !! Set(tmp)
        invariant CoresOf(mask[..]) + CoresIn(i, tmp) == old(CoresOf(mask[..])) + CoresIn(i, w)
        invariant forall j :: 0 <= j < mask.Length && j != i ==> mask[j] == old(mask[j])
        decreases Set(tmp)
      {
        tmp := ReturnLowest(i, tmp);
      }
    }

    method ReturnLowest(i: nat, tmp: Word) returns (rest: Word)
      requires Valid() && i < mask.Length && Set(mask[i]) !! Set(tmp) && tmp != ZERO
      modifies this`avail, mask
      ensures Valid() && Set(rest) < Set(tmp) && Set(mask[i]) !! Set(rest)
      ensures CoresOf(mask[..]) + CoresIn(i, rest) == old(CoresOf(mask[..])) + CoresIn(i, tmp)
      ensures forall j :: 0 <= j < mask.Length && j != i ==> mask[j] == old(mask[j])
    {
      ghost var s := mask[..];
      avail := avail + 1;
      SomeSet(tmp);
      var k := Bsf32(tmp);
      rest := tmp[k := false];
      mask[i] := mask[i][k := true];
      assert mask[..] == s[i := s[i][k := true]];
      GiveBack(s, i, k, tmp, mask[..], rest);
    }

    /** One turn of the outer loop of return_lcores. */
    method ReturnNext(i: nat, inMask: array<Word>, ghost free: seq<Word>)
      requires Valid() && i < mask.Length == inMask.Length == |free| && inMask != mask && mask[i] == free[i]
      requires CoresOf(free) !! CoresOf(inMask[..])
      requires CoresOf(mask[..]) == CoresOf(free) + CoresOf(inMask[..i])
      modifies this`avail, mask
      ensures Valid() && CoresOf(mask[..]) == CoresOf(free) + CoresOf(inMask[..i + 1])
      ensures forall j :: i < j < mask.Length ==> mask[j] == old(mask[j])
    {
      WordsApart(free, inMask[..], i);
      ReturnWord(i, inMask[i]);
      NextCores(inMask[..], i);
      assert inMask[..][..i + 1] == inMask[..i + 1] && inMask[..][..i] == inMask[..i];
    }

    /** return_lcores: every core of the given bitmap is free again. */
    method Return(inMask: array<Word>)
      requires Valid() && inMask != mask && inMask.Length == mask.Length
      requires CoresOf(mask[..]) !! CoresOf(inMask[..])
      modifies this`avail, mask
      ensures Valid() && CoresOf(mask[..]) == old(CoresOf(mask[..])) + CoresOf(inMask[..])
    {
      ghost var free := mask[..];
      assert inMask[..0] == [];
      var i := 0;
      while i < mask.Length
        invariant 0 <= i <= mask.Length && Valid()
        invariant CoresOf(mask[..]) == CoresOf(free) + CoresOf(inMask[..i])
        invariant forall j :: i <= j < mask.Length ==> mask[j] == free[j]
      {
        ReturnNext(i, inMask, free);
        i := i + 1;
      }
      assert inMask[..i] == inMask[..];
    }
  }

  /** The core numbers in word i. */
  function CoresIn(i: nat, w: Word): set<nat> {
    set k | k in Set(w) :: 32 * i + k
  }

  lemma ClearIn(i: nat, k: nat, tmp: Word, rest: Word)
    requires k in Set(tmp) && rest == tmp[k := false]
    ensures Set(rest) == Set(tmp) - {k} && CoresIn(i, tmp) == CoresIn(i, rest) + {32 * i + k}
  {
    forall d | d in CoresIn(i, tmp) ensures d in CoresIn(i, rest) + {32 * i + k} {
      var j :| j in Set(tmp) && d == 32 * i + j;
      if j != k { assert j in Set(rest); }
    }
  }

  lemma NotFree(s: seq<Word>, i: nat, k: nat)
    requires i < |s| && k < 32 && k !in Set(s[i])
    ensures 32 * i + k !in CoresOf(s)
  {
  }

  lemma GiveBack(s: seq<Word>, i: nat, k: nat, tmp: Word, s': seq<Word>, rest: Word)
    requires i < |s| && k in Set(tmp) && Set(s[i]) !! Set(tmp)
    requires s' == s[i := s[i][k := true]] && rest == tmp[k := false]
    ensures Set(rest) < Set(tmp) && Set(s'[i]) !! Set(rest)
    ensures CoresOf(s') == CoresOf(s) + {32 * i + k} && |CoresOf(s')| == |CoresOf(s)| + 1
    ensures CoresIn(i, tmp) == CoresIn(i, rest) + {32 * i + k}
  {
    SetCore(s, i, k);
    NotFree(s, i, k);
    ClearIn(i, k, tmp, rest);
    assert k in Set(tmp) && k !in Set(rest);
    assert Set(s'[i]) == Set(s[i]) + {k};
  }

  lemma WordsApart(s: seq<Word>, t: seq<Word>, i: nat)
    requires i < |s| == |t| && CoresOf(s) !! CoresOf(t)
    ensures Set(s[i]) !! Set(t[i])
  {
    forall k | k in Set(s[i]) ensures k !in Set(t[i]) {
      var c := 32 * i + k;
      assert c / 32 == i && c % 32 == k;
      assert c in CoresOf(s) && (k in Set(t[i]) <==> c in CoresOf(t));
    }
  }

  lemma NextCores(s: seq<Word>, i: nat)
    requires i < |s|
    ensures CoresOf(s[..i + 1]) == CoresOf(s[..i]) + CoresIn(i, s[i])
  {
  }

  /** One client of urdmad. */
  class Process {
    const mask: array<Word>

    constructor (words: nat)
      ensures fresh(mask) && mask.Length == words && CoresOf(mask[..]) == {}
    {
      mask := new Word[words](_ => ZERO);
    }
  }

  /** The free cores and the shares of the processes are pairwise disjoint, and together they are
      all the cores. */
  ghost predicate Parted(free: set<nat>, shares: seq<set<nat>>, all: set<nat>) {
    && free <= all
    && (forall i :: 0 <= i < |shares| ==> shares[i] <= all && shares[i] !! free)
    && (forall i, j :: 0 <= i < j < |shares| ==> shares[i] !! shares[j])
    && (forall c :: c in all ==> c in free || exists i :: 0 <= i < |shares| && c in shares[i])
  }

  lemma Join(free: set<nat>, shares: seq<set<nat>>, all: set<nat>)
    requires Parted(free, shares, all)
    ensures Parted(free, shares + [{}], all)
  {
    var s := shares + [{}];
    forall c | c in all ensures c in free || exists i :: 0 <= i < |s| && c in s[i] {
      if c !in free {
        var i :| 0 <= i < |shares| && c in shares[i];
        assert s[i] == shares[i];
      }
    }
  }

  lemma Take(free: set<nat>, shares: seq<set<nat>>, all: set<nat>, i: nat, left: set<nat>, s: seq<set<nat>>)
    requires Parted(free, shares, all) && i < |shares| && left <= free
    requires s == shares[i := shares[i] + (free - left)]
    ensures Parted(left, s, all) && |s[i]| == |shares[i]| + |free| - |left|
  {
    forall c | c in all ensures c in left || exists j :: 0 <= j < |s| && c in s[j] {
      if c in free - left {
        assert c in s[i];
      } else if c !in left {
        var j :| 0 <= j < |shares| && c in shares[j];
        assert c in s[j];
      }
    }
    assert left + (free - left) == free;
  }

  function Without<T>(s: seq<T>, i: nat): (r: seq<T>)
    requires i < |s|
    ensures |r| == |s| - 1 && forall j :: 0 <= j < |r| ==> r[j] == s[Skip(i, j)]
  {
    s[..i] + s[i + 1..]
  }

  function Skip(i: nat, j: nat): nat {
    if j < i then j else j + 1
  }

  lemma LeaveCovers(free: set<nat>, shares: seq<set<nat>>, all: set<nat>, i: nat, s: seq<set<nat>>, c: nat)
    requires Parted(free, shares, all) && i < |shares| && s == Without(shares, i) && c in all
    ensures c in free + shares[i] || exists j :: 0 <= j < |s| && c in s[j]
  {
    if c !in free + shares[i] {
      var j :| 0 <= j < |shares| && c in shares[j];
      var k := if j < i then j else j - 1;
      assert Skip(i, k) == j && c in s[k];
    }
  }

  lemma Leave(free: set<nat>, shares: seq<set<nat>>, all: set<nat>, i: nat)
    requires Parted(free, shares, all) && i < |shares|
    ensures Parted(free + shares[i], Without(shares, i), all)
    ensures |free + shares[i]| == |free| + |shares[i]|
  {
    var s := Without(shares, i);
    forall c | c in all ensures c in free + shares[i] || exists j :: 0 <= j < |s| && c in s[j] {
      LeaveCovers(free, shares, all, i, s, c);
    }
    forall j | 0 <= j < |s| ensures s[j] <= all && s[j] !! free + shares[i] {
      var k := Skip(i, j);
      assert s[j] == shares[k] && shares[k] !! free && shares[k] !! shares[i];
    }
  }

  /** A process vanishes with its cores: they are then in nobody's hands. */
  lemma Vanish(free: set<nat>, shares: seq<set<nat>>, all: set<nat>, i: nat)
    requires Parted(free, shares, all) && i < |shares|
    ensures Parted(free, Without(shares, i), all - shares[i])
  {
    var s := Without(shares, i);
    forall c | c in all - shares[i] ensures c in free || exists j :: 0 <= j < |s| && c in s[j] {
      LeaveCovers(free, shares, all, i, s, c);
    }
    forall j | 0 <= j < |s| ensures s[j] <= all - shares[i] && s[j] !! free {
      var k := Skip(i, j);
      assert s[j] == shares[k] && shares[k] !! shares[i];
    }
  }

  /** So cores are conserved when a process is dropped without returning them if and only if it
      had none. */
  lemma DroppedConservesIff(free: set<nat>, shares: seq<set<nat>>, all: set<nat>, i: nat)
    requires Parted(free, shares, all) && i < |shares|
    ensures Parted(free, Without(shares, i), all) <==> shares[i] == {}
  {
    Vanish(free, shares, all, i);
    var s := Without(shares, i);
    if c :| c in shares[i] {
      assert c !in free && forall j :: 0 <= j < |s| ==> c !in s[j] by {
        forall j | 0 <= j < |s| ensures c !in s[j] { assert s[j] == shares[Skip(i, j)] && s[j] !! shares[i]; }
      }
      assert c in all;
    } else {
      assert all - shares[i] == all;
    }
  }

  /** The allocator together with the live processes. */
  class Daemon {
    const free: CoreAllocator
    var procs: seq<Process>
    ghost var shares: seq<set<nat>>
    ghost var lost: set<nat>
    ghost const all: set<nat>

    ghost function Masks(): set<object>
      reads this
    {
      set i | 0 <= i < |procs| :: procs[i].mask
    }

    ghost predicate Separate()
      reads this
    {
      && (forall i :: 0 <= i < |procs| ==> procs[i].mask.Length == free.mask.Length && procs[i].mask != free.mask)
      && (forall i, j :: 0 <= i < j < |procs| ==> procs[i].mask != procs[j].mask)
    }

    ghost predicate Matches()
      reads this, free, free.mask, Masks()
    {
      && Separate() && free.Valid() && |shares| == |procs|
      && forall i :: 0 <= i < |procs| ==> CoresOf(procs[i].mask[..]) == shares[i]
    }

    /** The counter agrees with the bitmap of free cores, and the bitmaps of the daemon and of the
        processes part the cores there were to begin with, but for those that are lost. */
    ghost predicate Valid()
      reads this, free, free.mask, Masks()
    {
      Matches() && lost <= all && Parted(CoresOf(free.mask[..]), shares, all - lost)
    }

    constructor (a: CoreAllocator)
      requires a.Valid()
      ensures Valid() && free == a && procs == [] && all == CoresOf(a.mask[..]) && lost == {}
    {
      free := a;
      procs := [];
      shares := [];
      lost := {};
      all := CoresOf(a.mask[..]);
    }

    /** listen_data_ready: a new process owns nothing. */
    method Listen()
      requires Valid()
      modifies this`procs, this`shares
      ensures Valid() && shares == old(shares) + [{}]
      ensures |procs| == |old(procs)| + 1 && procs[..|old(procs)|] == old(procs) && fresh(procs[|old(procs)|].mask)
    {
      var p := new Process(free.mask.Length);
      Join(CoresOf(free.mask[..]), shares, all - lost);
      procs := procs + [p];
      shares := shares + [{}];
    }

    /** The reservation, as far as the bitmaps go. */
    method Grant(i: nat, count: nat) returns (ok: bool)
      requires Matches() && i < |procs|
      modifies this`shares, free`avail, free.mask, procs[i].mask
      ensures Matches() && (ok <==> count <= old(free.avail))
      ensures ok ==> CoresOf(free.mask[..]) <= old(CoresOf(free.mask[..]))
      ensures ok ==> shares == old(shares)[i := old(shares[i]) + (old(CoresOf(free.mask[..])) - CoresOf(free.mask[..]))]
      ensures ok ==> free.avail == old(free.avail) - count
      ensures !ok ==> shares == old(shares) && free.avail == old(free.avail) && unchanged(free.mask)
    {
      ghost var had := CoresOf(free.mask[..]);
      ok := free.Reserve(count, procs[i].mask);
      if ok {
        shares := shares[i := shares[i] + (had - CoresOf(free.mask[..]))];
      }
    }

    /** reserve_cores for a process that is already there; it may reserve more than once. */
    method ReserveFor(i: nat, count: nat) returns (ok: bool)
      requires Valid() && i < |procs|
      modifies this`shares, free`avail, free.mask, procs[i].mask
      ensures Valid() && (ok <==> count <= old(free.avail)) && |shares| == |old(shares)|
      ensures free.avail == old(free.avail) - (if ok then count else 0)
      ensures |shares[i]| == |old(shares[i])| + (if ok then count else 0) && shares == old(shares)[i := shares[i]]
    {
      ok := Grant(i, count);
      if ok {
        Take(old(CoresOf(free.mask[..])), old(shares), all - lost, i, CoresOf(free.mask[..]), shares);
      }
    }

    /** The error exit of process_data_ready: the process is freed, and its cores are not returned. */
    method Drop(i: nat)
      requires Valid() && i < |procs|
      modifies this`procs, this`shares, this`lost
      ensures Valid() && shares == Without(old(shares), i) && procs == Without(old(procs), i)
      ensures lost == old(lost) + old(shares[i]) && old(lost) !! old(shares[i])
    {
      Vanish(CoresOf(free.mask[..]), shares, all - lost, i);
      ghost var share := shares[i];
      assert all - lost - share == all - (lost + share);
      procs := Without(procs, i);
      shares := Without(shares, i);
      lost := lost + share;
    }

    /** A HELLO: the process gets its cores, and a response that may fail to be sent. If either fails
        the process is dropped, and whatever it had is lost. */
    method Hello(i: nat, count: nat, sent: bool) returns (ok: bool)
      requires Valid() && i < |procs|
      modifies this`procs, this`shares, this`lost, free`avail, free.mask, procs[i].mask
      ensures Valid() && (ok <==> count <= old(free.avail) && sent)
      ensures ok ==> procs == old(procs) && lost == old(lost) && |shares| == |old(shares)|
      ensures ok ==> |shares[i]| == |old(shares[i])| + count && shares == old(shares)[i := shares[i]]
      ensures !ok ==> procs == Without(old(procs), i) && shares == Without(old(shares), i) && old(lost) <= lost
      ensures !ok ==> |lost| == |old(lost)| + |old(shares[i])| + (if count <= old(free.avail) then count else 0)
      ensures free.avail == old(free.avail) - (if count <= old(free.avail) then count else 0)
    {
      ok := ReserveFor(i, count);
      if !ok || !sent {
        ok := false;
        Drop(i);
      }
    }

    /** The end of a process: its cores are free again. */
    method Exit(i: nat)
      requires Valid() && i < |procs|
      modifies this`procs, this`shares, free`avail, free.mask
      ensures Valid() && shares == Without(old(shares), i) && procs == Without(old(procs), i)
      ensures free.avail == old(free.avail) + |old(shares[i])|
    {
      ghost var had := CoresOf(free.mask[..]);
      Leave(had, shares, all - lost, i);
      assert CoresOf(procs[i].mask[..]) == shares[i];
      free.Return(procs[i].mask);
      procs := Without(procs, i);
      shares := Without(shares, i);
    }
  }

  /** Two HELLOs that lose a core: one for a single core, then one for more than are left. */
  method TwoHellos(d: Daemon)
    requires d.Valid() && d.free.avail > 0
    modifies d`procs, d`shares, d`lost, d.free`avail, d.free.mask
    ensures d.Valid() && d.procs == old(d.procs) && |d.lost| == |old(d.lost)| + 1
    ensures d.free.avail == old(d.free.avail) - 1
  {
    var i := |d.procs|;
    d.Listen();
    var ok := d.Hello(i, 1, true);
    ok := d.Hello(i, d.free.avail + 1, true);
  }
}
