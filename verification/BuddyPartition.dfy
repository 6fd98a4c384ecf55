/**
 The abstract heap behind `allwindisk/arm/malloc.c`: a partition of the word area
 `[0, n)` into aligned chunks whose sizes are powers of two.

 `Scan`, `Take` and `Release` are the reference operations: a plain first-fit scan of
 every chunk, splitting by halves, and merging with free twins.
 */
module BuddyPartition {
  import opened BinaryArithmetic
  import opened Options

  /** A chunk's size in words (its header included) and whether it is allocated. */
  datatype Chunk = Chunk(size: nat, used: bool)

  /** Chunks by the offset of their header word. */
  type Partition = map<nat, Chunk>

  // ----- the invariant

  ghost predicate ChunkOk(c: Partition, n: nat, o: nat)
    requires o in c
  {
    var s := c[o].size;
    && IsPow2(s) && 2 <= s
    && Aligned(o, s)
    && o + s <= n
    && (o + s == n || o + s in c)
    && (forall p :: o < p < o + s ==> p !in c)
  }

  /** The chunks tile `[0, n)`: the first starts at 0, each is followed by another or by
      the end, and none starts inside another. */
  ghost predicate Tiling(c: Partition, n: nat) {
    0 in c && forall o {:trigger ChunkOk(c, n, o)} :: o in c ==> ChunkOk(c, n, o)
  }

  /** The other half of the enclosing block of twice the size. */
  function Twin(o: nat, s: nat): (t: int)
    requires IsPow2(s) && Aligned(o, s)
  {
    if Aligned(o, 2 * s) then o + s else o - s
  }

  /** The chunk at `o` is free and so is its twin, in one piece. */
  ghost predicate Mergeable(c: Partition, o: nat)
    requires o in c && IsPow2(c[o].size) && Aligned(o, c[o].size)
  {
    !c[o].used && Twin(o, c[o].size) in c && c[Twin(o, c[o].size)] == c[o]
  }

  ghost predicate Coalesced(c: Partition, n: nat)
    requires Tiling(c, n)
  {
    forall o {:trigger Mergeable(c, o)} :: o in c ==> ChunkOk(c, n, o) && !Mergeable(c, o)
  }

  ghost predicate WellFormed(c: Partition, n: nat) {
    Tiling(c, n) && Coalesced(c, n)
  }

  /** The allocated chunks, which is all a client can observe. */
  ghost function Used(c: Partition): map<nat, nat> {
    map o | o in c && c[o].used :: c[o].size
  }

  // ----- reading a tiling

  /** Every address lies in some chunk. */
  lemma {:induction false} Covering(c: Partition, n: nat, a: nat, from: nat) returns (o: nat)
    requires Tiling(c, n) && from in c && from <= a < n
    ensures o in c && from <= o <= a < o + c[o].size
    decreases n - from
  {
    assert ChunkOk(c, n, from);
    if a < from + c[from].size {
      o := from;
    } else {
      o := Covering(c, n, a, from + c[from].size);
    }
  }

  /** An address aligned to the chunk that holds it is that chunk's start. */
  lemma AlignedInsideIsStart(c: Partition, n: nat, a: nat, o: nat)
    requires Tiling(c, n) && o in c && ChunkOk(c, n, o)
    requires o <= a < o + c[o].size && Aligned(a, c[o].size)
    ensures a == o
  {
    assert ChunkOk(c, n, o);
    if o < a { AlignedGap(o, a, c[o].size); }
  }

  /** The twin address of a chunk is never payload: inside the area it is a header. */
  lemma TwinIsHeader(c: Partition, n: nat, o: nat)
    requires Tiling(c, n) && o in c && ChunkOk(c, n, o)
    ensures 0 <= Twin(o, c[o].size)
    ensures Twin(o, c[o].size) < n ==> Twin(o, c[o].size) in c
  {
    var s := c[o].size;
    if !Aligned(o, 2 * s) {
      OddMultiple(o, s);
      var t := o - s;
      var p := Covering(c, n, t, 0);
      assert ChunkOk(c, n, p);
      var u := c[p].size;
      if u <= s {
        AlignedWeaken(t, 2 * s, u);
        AlignedInsideIsStart(c, n, t, p);
      } else {
        // the chunk ends at a multiple of 2s, hence at or below t, yet it holds t
        Pow2Gap(s, u);
        SelfAligned(u, u);
        AlignedSum(p, u, u);
        AlignedWeaken(p + u, u, 2 * s);
        AlignedGap(t, p + u, 2 * s);
        assert false;
      }
    }
  }

  // ----- free regions are in one piece

  ghost predicate FreeRegion(c: Partition, a: nat, s: nat) {
    forall o :: o in c && a <= o < a + s ==> !c[o].used
  }

  /** In a coalesced heap an aligned region without allocated chunks lies in one chunk. */
  lemma {:induction false} WholeRegion(c: Partition, n: nat, a: nat, s: nat)
    requires WellFormed(c, n) && a in c && IsPow2(s) && Aligned(a, s) && a + s <= n
    requires FreeRegion(c, a, s)
    ensures c[a].size >= s
    decreases s
  {
    assert ChunkOk(c, n, a) && !Mergeable(c, a);
    var t := c[a].size;
    if t < s {
      Pow2Gap(t, s);
      var h := s / 2;
      AlignedWeaken(a, s, h);
      if t < h {
        WholeRegion(c, n, a, h);
      } else {
        var b := a + h;
        assert b in c && ChunkOk(c, n, b) && !Mergeable(c, b);
        SelfAligned(h, h);
        AlignedSum(a, h, h);
        WholeRegion(c, n, b, h);
        HalfBlockFits(c, n, a, h);
      }
      assert false;
    }
  }

  /** A chunk that starts in the middle of an aligned block stays inside it. */
  lemma HalfBlockFits(c: Partition, n: nat, a: nat, h: nat)
    requires Tiling(c, n) && IsPow2(h) && Aligned(a, 2 * h) && a + h in c
    ensures c[a + h].size <= h
  {
    assert ChunkOk(c, n, a + h);
    var u := c[a + h].size;
    if h < u {
      Pow2Gap(h, u);
      AlignedWeaken(a + h, u, 2 * h);
      AlignedSum(a, h, 2 * h);
      SelfAligned(h, 2 * h);
      assert false;
    }
  }

  // ----- the partition is a function of the allocated chunks

  /** A free chunk of one heap is a chunk of any other heap with the same allocations. */
  lemma FreeChunkShared(c: Partition, d: Partition, n: nat, o: nat)
    requires WellFormed(c, n) && WellFormed(d, n) && Used(c) == Used(d)
    requires o in c && !c[o].used
    ensures o in d && d[o] == c[o]
  {
    assert ChunkOk(c, n, o);
    var s := c[o].size;
    var p := Covering(d, n, o, 0);
    assert ChunkOk(d, n, p);
    var t := d[p].size;
    assert p in Used(d) <==> p in Used(c);
    assert p in c ==> ChunkOk(c, n, p);
    if d[p].used {
      assert false;
    } else if t <= s {
      AlignedWeaken(o, s, t);
      AlignedInsideIsStart(d, n, o, p);
      OthersFree(c, d, n, o);
      WholeRegion(d, n, o, s);
    } else {
      // symmetric: the whole of d's larger chunk is free in c
      OthersFree(d, c, n, p);
      AlignedStartShared(c, d, n, o, p);
      WholeRegion(c, n, p, t);
      assert false;
    }
  }

  /** A free chunk of `c` holds no allocated chunk of `d`. */
  lemma OthersFree(c: Partition, d: Partition, n: nat, o: nat)
    requires Tiling(c, n) && Tiling(d, n) && Used(c) == Used(d)
    requires o in c && !c[o].used
    ensures FreeRegion(d, o, c[o].size)
  {
    assert ChunkOk(c, n, o);
    forall q | q in d && o <= q < o + c[o].size ensures !d[q].used {
      assert q in Used(d) <==> q in Used(c);
    }
  }

  /** A larger free chunk of `d` around a chunk of `c` starts at a chunk of `c`. */
  lemma AlignedStartShared(c: Partition, d: Partition, n: nat, o: nat, p: nat)
    requires Tiling(c, n) && Tiling(d, n) && o in c && p in d
    requires p <= o < p + d[p].size && c[o].size < d[p].size
    ensures p in c
  {
    assert ChunkOk(c, n, o) && ChunkOk(d, n, p);
    var t := d[p].size;
    var q := Covering(c, n, p, 0);
    assert ChunkOk(c, n, q);
    if t < c[q].size {
      // then q's chunk holds o as well, so q is o, which is smaller
      Pow2Gap(t, c[q].size);
      SelfAligned(c[q].size, c[q].size);
      AlignedSum(q, c[q].size, c[q].size);
      AlignedWeaken(q + c[q].size, c[q].size, t);
      AlignedGap(p, q + c[q].size, t);
      assert false;
    } else {
      AlignedWeaken(p, t, c[q].size);
      AlignedInsideIsStart(c, n, p, q);
    }
  }

  /** Canonical form: two coalesced heaps with the same allocated chunks are equal. */
  lemma PartitionDetermined(c: Partition, d: Partition, n: nat)
    requires WellFormed(c, n) && WellFormed(d, n) && Used(c) == Used(d)
    ensures c == d
  {
    forall o | o in c ensures o in d && d[o] == c[o] {
      if c[o].used {
        assert o in Used(c);
        assert o in Used(d);
      } else {
        FreeChunkShared(c, d, n, o);
      }
    }
    forall o | o in d ensures o in c {
      if d[o].used {
        assert o in Used(d);
        assert o in Used(c);
      } else {
        FreeChunkShared(d, c, n, o);
      }
    }
  }

  // ----- the plain scan

  predicate Fits(k: Chunk, need: nat) {
    !k.used && need <= k.size
  }

  /** Looks at every chunk from `from` on and picks the first free one that is large enough. */
  ghost function Scan(c: Partition, n: nat, need: nat, from: nat): Option<nat>
    requires Tiling(c, n) && from in c
    decreases n - from
  {
    assert ChunkOk(c, n, from);
    if Fits(c[from], need) then Some(from)
    else if from + c[from].size == n then None
    else Scan(c, n, need, from + c[from].size)
  }

  ghost predicate NoFitBetween(c: Partition, need: nat, a: nat, b: nat) {
    forall p :: p in c && a <= p < b ==> !Fits(c[p], need)
  }

  /** First fit: the lowest chunk that fits, and None exactly when no chunk does. */
  lemma {:induction false} ScanIsFirstFit(c: Partition, n: nat, need: nat, from: nat)
    requires Tiling(c, n) && from in c
    ensures match Scan(c, n, need, from)
            case Some(o) => o in c && from <= o < n && Fits(c[o], need) && NoFitBetween(c, need, from, o)
            case None => NoFitBetween(c, need, from, n)
    decreases n - from
  {
    assert ChunkOk(c, n, from);
    if !Fits(c[from], need) && from + c[from].size < n {
      ScanIsFirstFit(c, n, need, from + c[from].size);
    }
  }

  /** The two clauses of `ScanIsFirstFit` leave no freedom. */
  lemma ScanUnique(c: Partition, n: nat, need: nat, r: Option<nat>)
    requires Tiling(c, n)
    requires r.Some? ==> r.value in c && Fits(c[r.value], need) && NoFitBetween(c, need, 0, r.value)
    requires r.None? ==> NoFitBetween(c, need, 0, n)
    ensures r == Scan(c, n, need, 0)
  {
    ScanIsFirstFit(c, n, need, 0);
    assert r.Some? ==> ChunkOk(c, n, r.value);
  }

  // ----- splitting

  /** Replaces the free chunk at `o` by its two halves. */
  function Halve(c: Partition, o: nat): Partition
    requires o in c
  {
    var h := c[o].size / 2;
    c[o := Chunk(h, false)][o + h := Chunk(h, false)]
  }

  ghost function Split(c: Partition, o: nat, need: nat): Partition
    requires o in c && IsPow2(c[o].size) && IsPow2(need) && need <= c[o].size
    decreases c[o].size
  {
    if c[o].size == need then c
    else
      Pow2Gap(need, c[o].size);
      Split(Halve(c, o), o, need)
  }

  /** Allocates the first `need` words of the free chunk at `o`. */
  ghost function Take(c: Partition, o: nat, need: nat): Partition
    requires o in c && IsPow2(c[o].size) && IsPow2(need) && need <= c[o].size
  {
    Split(c, o, need)[o := Chunk(need, true)]
  }

  /** Every mergeable pair has `o` in it. */
  ghost predicate CoalescedAround(c: Partition, n: nat, o: nat)
    requires Tiling(c, n)
  {
    forall p {:trigger Mergeable(c, p)} :: p in c && p != o ==>
      ChunkOk(c, n, p) && (Mergeable(c, p) ==> Twin(p, c[p].size) == o)
  }

  lemma HalveKeepsTiling(c: Partition, n: nat, o: nat)
    requires Tiling(c, n) && o in c && c[o].size > 2
    ensures Tiling(Halve(c, o), n)
  {
    assert ChunkOk(c, n, o);
    var d, h := Halve(c, o), c[o].size / 2;
    AlignedWeaken(o, c[o].size, h);
    SelfAligned(h, h);
    AlignedSum(o, h, h);
    assert IsPow2(h);
    forall p | p in d ensures ChunkOk(d, n, p) {
      if p != o && p != o + h { assert ChunkOk(c, n, p); }
    }
  }

  lemma HalveKeepsRest(c: Partition, n: nat, o: nat)
    requires Tiling(c, n) && o in c && !c[o].used && c[o].size > 2
    requires CoalescedAround(c, n, o)
    ensures Tiling(Halve(c, o), n) && CoalescedAround(Halve(c, o), n, o)
  {
    assert ChunkOk(c, n, o);
    HalveKeepsTiling(c, n, o);
    var d, h := Halve(c, o), c[o].size / 2;
    assert ChunkOk(d, n, o + h);
    assert Twin(o + h, h) == o by {
      AlignedSum(o, h, 2 * h);
      SelfAligned(h, 2 * h);
    }
    forall p | p in d && p != o
      ensures ChunkOk(d, n, p) && (Mergeable(d, p) ==> Twin(p, d[p].size) == o)
    {
      assert ChunkOk(d, n, p);
      if p != o + h {
        assert ChunkOk(c, n, p) && (Mergeable(c, p) ==> Twin(p, c[p].size) == o);
        if Mergeable(d, p) && Twin(p, d[p].size) == o + h {
          TwinInvolution(p, h);
        }
      }
    }
  }

  lemma HalveKeepsUsed(c: Partition, n: nat, o: nat)
    requires Tiling(c, n) && o in c && !c[o].used && c[o].size > 2
    ensures Used(Halve(c, o)) == Used(c)
  {
    assert ChunkOk(c, n, o);
  }

  lemma TwinInvolution(o: nat, s: nat)
    requires IsPow2(s) && Aligned(o, s)
    ensures Twin(o, s) >= 0 && Aligned(Twin(o, s), s) && Twin(Twin(o, s), s) == o
  {
    assert IsPow2(2 * s);
    hide IsPow2, Aligned;
    SelfAligned(s, s);
    SelfAligned(s, 2 * s);
    if Aligned(o, 2 * s) {
      AlignedSum(o, s, s);
      AlignedSum(o, s, 2 * s);
    } else {
      OddMultiple(o, s);
      AlignedWeaken(o - s, 2 * s, s);
    }
  }

  lemma {:induction false} SplitKeepsRest(c: Partition, n: nat, o: nat, need: nat)
    requires Tiling(c, n) && o in c && ChunkOk(c, n, o) && !c[o].used
    requires IsPow2(need) && 2 <= need <= c[o].size
    requires CoalescedAround(c, n, o)
    ensures var d := Split(c, o, need);
            && Tiling(d, n) && CoalescedAround(d, n, o) && Used(d) == Used(c)
            && o in d && d[o] == Chunk(need, false)
    decreases c[o].size
  {
    if need < c[o].size {
      Pow2Gap(need, c[o].size);
      HalveKeepsRest(c, n, o);
      HalveKeepsUsed(c, n, o);
      assert ChunkOk(Halve(c, o), n, o);
      SplitKeepsRest(Halve(c, o), n, o, need);
    }
  }

  /** Whether a chunk is allocated does not matter for the tiling. */
  lemma RemarkKeepsTiling(c: Partition, n: nat, o: nat, used: bool)
    requires Tiling(c, n) && o in c
    ensures Tiling(c[o := Chunk(c[o].size, used)], n)
  {
    var d := c[o := Chunk(c[o].size, used)];
    forall p | p in d ensures ChunkOk(d, n, p) {
      assert ChunkOk(c, n, p);
    }
  }

  lemma AllocatingCoalesces(c: Partition, n: nat, o: nat)
    requires Tiling(c, n) && o in c && !c[o].used && CoalescedAround(c, n, o)
    ensures WellFormed(c[o := Chunk(c[o].size, true)], n)
  {
    RemarkKeepsTiling(c, n, o, true);
    var d := c[o := Chunk(c[o].size, true)];
    forall p | p in d ensures ChunkOk(d, n, p) && !Mergeable(d, p) {
      assert ChunkOk(d, n, p) && ChunkOk(c, n, p);
      assert p != o ==> Mergeable(c, p) ==> Twin(p, c[p].size) == o;
    }
  }

  /** Allocation keeps the invariant and adds exactly one allocated chunk. */
  lemma TakeKeepsValid(c: Partition, n: nat, o: nat, need: nat)
    requires WellFormed(c, n) && o in c && ChunkOk(c, n, o) && !c[o].used
    requires IsPow2(need) && 2 <= need <= c[o].size
    ensures WellFormed(Take(c, o, need), n)
    ensures Used(Take(c, o, need)) == Used(c)[o := need]
  {
    assert CoalescedAround(c, n, o);
    SplitKeepsRest(c, n, o, need);
    AllocatingCoalesces(Split(c, o, need), n, o);
    assert forall p :: p in Used(c) <==> p in Used(Split(c, o, need));
  }

  // ----- merging

  /** Joins the free chunk at `o` with its free twin. */
  ghost function Join(c: Partition, o: nat): Partition
    requires o in c && IsPow2(c[o].size) && Aligned(o, c[o].size) && Mergeable(c, o)
  {
    var t, s := Twin(o, c[o].size), c[o].size;
    if t < o then (c - {o})[t := Chunk(2 * s, false)] else (c - {t})[o := Chunk(2 * s, false)]
  }

  /** The lower half of the block that `o` and its twin make up. */
  function Lower(o: nat, s: nat): (l: nat)
    requires IsPow2(s) && Aligned(o, s)
  {
    TwinInvolution(o, s);
    if Twin(o, s) < o then Twin(o, s) else o
  }

  lemma JoinKeepsTiling(c: Partition, n: nat, o: nat)
    requires Tiling(c, n) && o in c && ChunkOk(c, n, o) && Mergeable(c, o)
    ensures Tiling(Join(c, o), n)
    ensures var l := Lower(o, c[o].size); l in Join(c, o) && Join(c, o)[l] == Chunk(2 * c[o].size, false)
  {
    var t, s := Twin(o, c[o].size), c[o].size;
    TwinInvolution(o, s);
    assert ChunkOk(c, n, t);
    var l := Lower(o, s);
    assert l in c && l + s in c && Aligned(l, 2 * s) by {
      if !Aligned(o, 2 * s) { OddMultiple(o, s); }
    }
    assert Join(c, o) == (c - {l + s})[l := Chunk(2 * s, false)];
    HalvesJoined(c, n, l, s);
  }

  lemma HalvesJoined(c: Partition, n: nat, l: nat, s: nat)
    requires Tiling(c, n) && l in c && l + s in c && c[l].size == s == c[l + s].size
    requires IsPow2(2 * s) && Aligned(l, 2 * s)
    ensures Tiling((c - {l + s})[l := Chunk(2 * s, false)], n)
  {
    var d := (c - {l + s})[l := Chunk(2 * s, false)];
    assert ChunkOk(c, n, l) && ChunkOk(c, n, l + s);
    forall p | p in d ensures ChunkOk(d, n, p) {
      if p != l { assert ChunkOk(c, n, p); }
    }
  }

  ghost function Merge(c: Partition, n: nat, o: nat): Partition
    requires Tiling(c, n) && o in c
    decreases n - c[o].size
  {
    assert ChunkOk(c, n, o);
    if Mergeable(c, o) then
      JoinKeepsTiling(c, n, o);
      assert ChunkOk(Join(c, o), n, Lower(o, c[o].size));
      Merge(Join(c, o), n, Lower(o, c[o].size))
    else c
  }

  /** Frees the chunk at `o` and merges it upwards as far as its twins are free. */
  ghost function Release(c: Partition, n: nat, o: nat): Partition
    requires Tiling(c, n) && o in c
  {
    RemarkKeepsTiling(c, n, o, false);
    Merge(c[o := Chunk(c[o].size, false)], n, o)
  }

  lemma JoinKeepsRest(c: Partition, n: nat, o: nat)
    requires Tiling(c, n) && o in c && ChunkOk(c, n, o) && Mergeable(c, o)
    requires CoalescedAround(c, n, o)
    ensures Tiling(Join(c, o), n) && CoalescedAround(Join(c, o), n, Lower(o, c[o].size))
  {
    JoinKeepsTiling(c, n, o);
    var d, l := Join(c, o), Lower(o, c[o].size);
    forall p | p in d && p != l
      ensures ChunkOk(d, n, p) && (Mergeable(d, p) ==> Twin(p, d[p].size) == l)
    {
      assert ChunkOk(d, n, p);
      assert p in c && p != o && d[p] == c[p];
      assert ChunkOk(c, n, p);
      assert Mergeable(c, p) ==> Twin(p, c[p].size) == o;
    }
  }

  lemma JoinKeepsUsed(c: Partition, o: nat)
    requires o in c && IsPow2(c[o].size) && Aligned(o, c[o].size) && Mergeable(c, o)
    ensures Used(Join(c, o)) == Used(c)
  {
  }

  lemma {:induction false} MergeKeepsRest(c: Partition, n: nat, o: nat)
    requires Tiling(c, n) && o in c && !c[o].used && CoalescedAround(c, n, o)
    ensures WellFormed(Merge(c, n, o), n) && Used(Merge(c, n, o)) == Used(c)
    decreases n - c[o].size
  {
    assert ChunkOk(c, n, o);
    if Mergeable(c, o) {
      JoinKeepsTiling(c, n, o);
      JoinKeepsRest(c, n, o);
      JoinKeepsUsed(c, o);
      assert ChunkOk(Join(c, o), n, Lower(o, c[o].size));
      MergeKeepsRest(Join(c, o), n, Lower(o, c[o].size));
    } else {
      forall p | p in c ensures ChunkOk(c, n, p) && !Mergeable(c, p) {
        assert ChunkOk(c, n, p);
        if p != o && Mergeable(c, p) { TwinInvolution(p, c[p].size); }
      }
    }
  }

  lemma FreeingCoalesces(c: Partition, n: nat, o: nat)
    requires WellFormed(c, n) && o in c
    ensures Tiling(c[o := Chunk(c[o].size, false)], n)
    ensures CoalescedAround(c[o := Chunk(c[o].size, false)], n, o)
  {
    RemarkKeepsTiling(c, n, o, false);
    var d := c[o := Chunk(c[o].size, false)];
    forall p | p in d && p != o
      ensures ChunkOk(d, n, p) && (Mergeable(d, p) ==> Twin(p, d[p].size) == o)
    {
      assert ChunkOk(d, n, p) && ChunkOk(c, n, p) && !Mergeable(c, p);
    }
  }

  /** Freeing keeps the invariant and removes exactly one allocated chunk. */
  lemma ReleaseKeepsValid(c: Partition, n: nat, o: nat)
    requires WellFormed(c, n) && o in Used(c)
    ensures WellFormed(Release(c, n, o), n)
    ensures Used(Release(c, n, o)) == Used(c) - {o}
  {
    FreeingCoalesces(c, n, o);
    MergeKeepsRest(c[o := Chunk(c[o].size, false)], n, o);
    assert Used(c[o := Chunk(c[o].size, false)]) == Used(c) - {o};
  }

  /** Allocating and freeing at once restores the partition: the merges undo the splits and
      stop at the original chunk. */
  lemma TakeReleaseRestores(c: Partition, n: nat, o: nat, need: nat)
    requires WellFormed(c, n) && o in c && ChunkOk(c, n, o) && !c[o].used
    requires IsPow2(need) && 2 <= need <= c[o].size
    ensures WellFormed(Take(c, o, need), n)
    ensures Release(Take(c, o, need), n, o) == c
  {
    TakeKeepsValid(c, n, o, need);
    ReleaseKeepsValid(Take(c, o, need), n, o);
    assert o !in Used(c);
    assert Used(c)[o := need] - {o} == Used(c);
    PartitionDetermined(Release(Take(c, o, need), n, o), c, n);
  }

  // ----- the initial partition

  /** The binary decomposition of the area: from `o` on, the largest power of two that still
      fits, again and again. */
  ghost function Decomposition(o: nat, n: nat): Partition
    requires o <= n
    decreases n - o
  {
    if o == n then map[]
    else
      var s := FloorPow2(n - o);
      Decomposition(o + s, n)[o := Chunk(s, false)]
  }

  /** Every chunk is as large as the rest of the area allows. */
  ghost predicate Greedy(d: Partition, n: nat) {
    forall p :: p in d ==> !d[p].used && IsPow2(d[p].size) && d[p].size <= n - p < 2 * d[p].size
  }

  lemma {:induction false} DecompositionGreedy(o: nat, n: nat)
    requires o <= n
    ensures Greedy(Decomposition(o, n), n)
    decreases n - o
  {
    if o < n { DecompositionGreedy(o + FloorPow2(n - o), n); }
  }

  /** Free chunks from `o` on, smaller than `b` and ever smaller. */
  ghost predicate Descending(d: Partition, n: nat, o: nat, b: nat) {
    && (o < n ==> o in d)
    && (forall p :: p in d ==> o <= p && !d[p].used && d[p].size < b)
    && (forall p {:trigger ChunkOk(d, n, p)} :: p in d ==> ChunkOk(d, n, p))
    && (forall p, q :: p in d && q in d && p < q ==> d[q].size < d[p].size)
  }

  lemma DescendingExtends(e: Partition, n: nat, o: nat, s: nat, b: nat)
    requires Descending(e, n, o + s, s) && o + s <= n
    requires IsPow2(s) && 2 <= s < b && Aligned(o, s)
    ensures Descending(e[o := Chunk(s, false)], n, o, b)
  {
    var d := e[o := Chunk(s, false)];
    forall p | p in d ensures ChunkOk(d, n, p) {
      if p != o { assert ChunkOk(e, n, p); }
    }
  }

  lemma GreedyStep(o: nat, n: nat, b: nat, s: nat)
    requires o < n && (n - o) % 2 == 0 && IsPow2(b) && n - o < b && Aligned(o, b)
    requires IsPow2(s) && s <= n - o < 2 * s
    ensures 2 <= s < b && s % 2 == 0
    ensures Aligned(o, s) && Aligned(o + s, s)
  {
    assert s != 1 && s % 2 == 0;
    hide IsPow2, Aligned;
    if b < s { Pow2Gap(b, s); }
    AlignedWeaken(o, b, s);
    SelfAligned(s, s);
    AlignedSum(o, s, s);
  }

  lemma {:induction false} DecompositionShape(o: nat, n: nat, b: nat)
    requires o <= n && (n - o) % 2 == 0 && IsPow2(b) && n - o < b && Aligned(o, b)
    ensures Descending(Decomposition(o, n), n, o, b)
    decreases n - o
  {
    hide IsPow2, Aligned, ChunkOk;
    if o < n {
      var s := FloorPow2(n - o);
      GreedyStep(o, n, b, s);
      DecompositionShape(o + s, n, s);
      DescendingExtends(Decomposition(o + s, n), n, o, s, b);
    }
  }

  /** The decomposition is a coalesced tiling with nothing allocated. */
  lemma DecompositionValid(n: nat)
    requires 2 <= n && n % 2 == 0
    ensures WellFormed(Decomposition(0, n), n) && Used(Decomposition(0, n)) == map[]
  {
    var b := 2 * FloorPow2(n);
    assert IsPow2(b);
    ZeroAligned(b);
    DecompositionShape(0, n, b);
    var d := Decomposition(0, n);
    forall p | p in d ensures ChunkOk(d, n, p) && !Mergeable(d, p) {
      assert ChunkOk(d, n, p);
    }
  }

  /** Whenever nothing is allocated the heap is back to its initial partition. */
  lemma EmptyHeapIsInitial(c: Partition, n: nat)
    requires WellFormed(c, n) && Used(c) == map[] && 2 <= n && n % 2 == 0
    ensures c == Decomposition(0, n)
  {
    DecompositionValid(n);
    PartitionDetermined(c, Decomposition(0, n), n);
  }
}
