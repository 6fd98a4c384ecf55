/**
 `allwindisk/arm/malloc.c`: the allocator whose whole state is the header words inside the
 memory it hands out. A header holds the chunk size in words, plus 1 when allocated.
 */
module BuddyHeap {
  import opened BinaryArithmetic
  import opened Options
  import opened BuddyPartition

  /** A pointer into the area, as the index of the word it points at. */
  datatype Pointer = Null | At(word: nat)

  function Header(k: Chunk): nat {
    k.size + (if k.used then 1 else 0)
  }

  /** The header words in `mem` are those of the partition `c`. */
  ghost predicate Describes(mem: seq<word>, c: Partition) {
    forall o :: o in c ==> o < |mem| && mem[o] == Header(c[o])
  }

  /** Chunk size in words for a request in bytes; the addition wraps as on the 32-bit target. */
  function Need(request: word): nat {
    2 * FloorPow2((request + 7) % 0x1_0000_0000 / 4)
  }

  /** The unsigned predecessor, wrapping at 0. */
  function Pred(s: word): word {
    if s == 0 then 0xFFFF_FFFF else s - 1
  }

  /** The payload holds the request exactly when `request + 7` does not wrap. */
  lemma PayloadCoversRequest(request: word)
    requires request > 0
    ensures 4 * (Need(request) - 1) >= request <==> request + 7 < 0x1_0000_0000
  {
  }

  /** A wrapped request asks for an 8-byte chunk or, for four sizes, for an empty one. */
  lemma WrappedRequests(request: word)
    requires request + 7 >= 0x1_0000_0000
    ensures Need(request) == if request + 7 < 0x1_0000_0000 + 4 then 0 else 2
  {
  }

  /** A request that does not wrap takes the least power of two above `(size + 7) >> 2` words. */
  lemma NeedIsNextPow2(request: word)
    requires 0 < request && request + 7 < 0x1_0000_0000
    ensures IsPow2(Need(request)) && Need(request) / 2 <= (request + 7) / 4 < Need(request)
  {
    hide FloorPow2, IsPow2;
    NeedIsPow2(request);
  }

  lemma NeedIsPow2(request: word)
    requires Need(request) != 0
    ensures IsPow2(Need(request)) && 2 <= Need(request) < 0x8000_0000
  {
    var p := FloorPow2((request + 7) % 0x1_0000_0000 / 4);
    assert Need(request) / 2 == p;
  }

  /** The loop `while( x & (x - 1) ) x &= x - 1` leaves the highest bit. */
  method KeepHighestBit(w: word) returns (p: word)
    ensures p == FloorPow2(w)
  {
    p := w;
    var q := And(p, Pred(p));
    while q != 0
      invariant q == And(p, Pred(p))
      invariant FloorPow2(p) == FloorPow2(w)
      decreases p
    {
      ClearLowestBit(p);
      p := q;
      q := And(p, Pred(p));
    }
    if p > 0 {
      ClearLowestBit(p);
      FloorPow2Unique(p, p);
    }
  }

  /** The inner loop of malloc_init: the previous size shrinks to what still fits. */
  method HalveToFit(previous: nat, room: nat) returns (s: nat)
    requires IsPow2(previous) && 0 < room < 2 * previous
    ensures IsPow2(s) && s <= room < 2 * s
  {
    s := previous;
    while s > room
      invariant IsPow2(s) && room < 2 * s
    {
      s := s / 2;
    }
  }

  lemma SameBracket(s: nat, t: nat, room: nat)
    requires IsPow2(s) && IsPow2(t) && s <= room < 2 * s && t <= room < 2 * t
    ensures s == t
  {
    if s < t { Pow2Gap(s, t); } else if t < s { Pow2Gap(t, s); }
  }

  // ----- the search

  /** Stepping over a chunk that is allocated or too small, by the larger of its size and the
      request, lands on a header, and every chunk stepped over does not fit. */
  lemma StrideIsSafe(c: Partition, n: nat, need: nat, o: nat)
    requires Tiling(c, n) && o in c && ChunkOk(c, n, o) && !Fits(c[o], need)
    requires IsPow2(need) && Aligned(o, need)
    ensures var stride := if c[o].size < need then need else c[o].size;
            && NoFitBetween(c, need, o, o + stride)
            && (o + stride < n ==> o + stride in c && Aligned(o + stride, need))
  {
    var s := c[o].size;
    if s < need {
      SelfAligned(need, need);
      AlignedSum(o, need, need);
      forall p | p in c && o <= p < o + need ensures !Fits(c[p], need) {
        if o < p && need <= c[p].size {
          assert ChunkOk(c, n, p);
          AlignedWeaken(p, c[p].size, need);
          AlignedGap(o, p, need);
        }
      }
      if o + need < n {
        var p := Covering(c, n, o + need, o + s);
        assert ChunkOk(c, n, p);
        if c[p].size <= need {
          AlignedWeaken(o + need, need, c[p].size);
          AlignedInsideIsStart(c, n, o + need, p);
        } else {
          AlignedWeaken(p, c[p].size, need);
          AlignedGap(o, p, need);
        }
      }
    } else {
      SelfAligned(s, need);
      AlignedSum(o, s, need);
    }
  }

  // ----- merging on header words

  lemma HeaderOfFree(k: Chunk, f: Chunk)
    requires k.size % 2 == 0 && f.size % 2 == 0 && !f.used
    ensures Header(k) == Header(f) <==> k == f
  {
  }

  lemma ChunkSizeEven(c: Partition, n: nat, o: nat)
    requires o in c && ChunkOk(c, n, o)
    ensures c[o].size % 2 == 0
  {
  }

  /** Comparing the word at `o ^ size` with the header at `o` decides mergeability. */
  lemma TwinWordDecides(mem: seq<word>, c: Partition, n: nat, o: nat)
    requires Tiling(c, n) && n <= |mem| && Describes(mem, c)
    requires o in c && ChunkOk(c, n, o) && !c[o].used
    ensures mem[o] == c[o].size && Xor(o, mem[o]) == Twin(o, c[o].size)
    ensures var t := Xor(o, mem[o]);
            && (t < n ==> t in c)
            && (Mergeable(c, o) <==> t < n && mem[t] == mem[o])
  {
    XorFlipsHalf(o, c[o].size);
    TwinIsHeader(c, n, o);
    var t: nat := Xor(o, mem[o]);
    if t in c {
      assert ChunkOk(c, n, t);
      ChunkSizeEven(c, n, t);
      ChunkSizeEven(c, n, o);
      HeaderOfFree(c[t], c[o]);
    }
  }

  /** Doubling the lower header word describes the joined chunk. */
  lemma JoinDescribed(mem: seq<word>, c: Partition, n: nat, o: nat)
    requires Tiling(c, n) && n <= |mem| && n <= 0x3FFF_FFFE && Describes(mem, c)
    requires o in c && ChunkOk(c, n, o) && Mergeable(c, o)
    ensures var l := Lower(o, c[o].size);
            && l < n && 2 * mem[l] < 0x1_0000_0000
            && Tiling(Join(c, o), n) && l in Join(c, o) && ChunkOk(Join(c, o), n, l)
            && Join(c, o)[l] == Chunk(2 * c[o].size, false)
            && Describes(mem[l := 2 * mem[l]], Join(c, o))
            && Join(c, o).Keys <= c.Keys
  {
    JoinKeepsTiling(c, n, o);
    assert ChunkOk(Join(c, o), n, Lower(o, c[o].size));
  }

  /** Halving the header word and copying it to the middle describes the two halves. */
  lemma HalveDescribed(mem: seq<word>, c: Partition, n: nat, o: nat)
    requires Tiling(c, n) && n <= |mem| && Describes(mem, c)
    requires o in c && !c[o].used && c[o].size > 2
    ensures var h := mem[o] / 2;
            && mem[o] == c[o].size && o + h < n
            && Tiling(Halve(c, o), n) && ChunkOk(Halve(c, o), n, o)
            && Describes(mem[o := h][o + h := h], Halve(c, o))
  {
    assert ChunkOk(c, n, o);
    HalveKeepsTiling(c, n, o);
    assert ChunkOk(Halve(c, o), n, o);
  }

  /** Word `i` belongs to the user of an allocated chunk. */
  ghost predicate InPayload(c: Partition, i: int) {
    exists o :: o in c && c[o].used && o < i < o + c[o].size
  }

  lemma FreeChunkHasNoPayload(c: Partition, n: nat, o: nat)
    requires Tiling(c, n) && o in c && ChunkOk(c, n, o) && !c[o].used
    ensures forall i :: InPayload(c, i) ==> !(o <= i < o + c[o].size)
  {
    forall i | InPayload(c, i) ensures !(o <= i < o + c[o].size) {
      var q :| q in c && c[q].used && q < i < q + c[q].size;
      assert ChunkOk(c, n, q);
    }
  }

  /** The reference `malloc`: first fit by a plain scan, cut down to the rounded size. */
  ghost function Allocated(c: Partition, n: nat, request: word): (Pointer, Partition)
    requires Tiling(c, n) && Need(request) != 0
  {
    NeedIsPow2(request);
    ScanIsFirstFit(c, n, Need(request), 0);
    if request == 0 then (Null, c)
    else match Scan(c, n, Need(request), 0)
      case None => (Null, c)
      case Some(o) =>
        assert ChunkOk(c, n, o);
        (At(o + 1), Take(c, o, Need(request)))
  }

  /** `o` is the lowest free chunk of `need` words or more. */
  ghost predicate LowestFit(c: Partition, need: nat, o: nat) {
    && o in c && !c[o].used && c[o].size >= need
    && forall q :: q in c && !c[q].used && c[q].size >= need ==> o <= q
  }

  /** Some free chunk has `need` words or more. */
  ghost predicate HasRoom(c: Partition, need: nat) {
    exists o :: o in c && !c[o].used && c[o].size >= need
  }

  /** What a client sees of malloc: NULL exactly for no bytes or without room; else the lowest
      fitting chunk gets allocated, in the rounded size, and nothing else changes. */
  lemma AllocatedIsFirstFit(c: Partition, n: nat, request: word)
    requires WellFormed(c, n) && Need(request) != 0
    ensures var (p, d) := Allocated(c, n, request);
            && WellFormed(d, n)
            && (p.Null? <==> request == 0 || !HasRoom(c, Need(request)))
            && (p.Null? ==> d == c)
            && (p.At? ==> p.word > 0 && LowestFit(c, Need(request), p.word - 1)
                          && Used(d) == Used(c)[p.word - 1 := Need(request)])
  {
    var need := Need(request);
    NeedIsPow2(request);
    ScanIsFirstFit(c, n, need, 0);
    var r := Scan(c, n, need, 0);
    if r.None? {
      forall o | o in c ensures !(!c[o].used && c[o].size >= need) { assert ChunkOk(c, n, o); }
    } else {
      assert ChunkOk(c, n, r.value);
      TakeKeepsValid(c, n, r.value, need);
    }
  }

  /** What a client sees of free: exactly its block is no longer allocated. */
  lemma FreedRemovesOne(c: Partition, n: nat, p: Pointer)
    requires WellFormed(c, n) && Live(c, p)
    ensures WellFormed(Freed(c, n, p), n)
    ensures Used(Freed(c, n, p)) == if p.Null? then Used(c) else Used(c) - {p.word - 1}
  {
    if p.At? { ReleaseKeepsValid(c, n, p.word - 1); }
  }

  ghost predicate Live(c: Partition, p: Pointer) {
    p.At? ==> p.word > 0 && p.word - 1 in Used(c)
  }

  /** The reference `free`. */
  ghost function Freed(c: Partition, n: nat, p: Pointer): Partition
    requires Tiling(c, n) && Live(c, p)
  {
    if p.Null? then c else Release(c, n, p.word - 1)
  }

  lemma PayloadIsNoHeader(c: Partition, n: nat, i: int)
    requires Tiling(c, n) && InPayload(c, i)
    ensures 0 < i < n && i !in c
  {
    var q :| q in c && c[q].used && q < i < q + c[q].size;
    assert ChunkOk(c, n, q);
  }

  /** Live payloads are disjoint. */
  lemma PayloadsDisjoint(c: Partition, n: nat, o: nat, p: nat)
    requires Tiling(c, n) && o in Used(c) && p in Used(c) && o != p
    ensures o + Used(c)[o] <= p || p + Used(c)[p] <= o
  {
    assert ChunkOk(c, n, o) && ChunkOk(c, n, p);
  }

  // ----- whole runs

  datatype Op = Alloc(request: word) | Dealloc(p: Pointer) | Write(at: nat, value: word)

  /** What C demands of a client; `Alloc` leaves out the four sizes that round to 0. */
  ghost predicate Legal(c: Partition, op: Op) {
    match op
    case Alloc(request) => Need(request) != 0
    case Dealloc(p) => Live(c, p)
    case Write(at, _) => InPayload(c, at)
  }

  ghost function Step(c: Partition, n: nat, op: Op): Partition
    requires Tiling(c, n) && Legal(c, op)
  {
    match op
    case Alloc(request) => Allocated(c, n, request).1
    case Dealloc(p) => Freed(c, n, p)
    case Write(_, _) => c
  }

  ghost predicate LegalRun(c: Partition, n: nat, ops: seq<Op>)
    requires WellFormed(c, n)
    decreases |ops|
  {
    ops == [] || (Legal(c, ops[0]) && (StepKeepsWellFormed(c, n, ops[0]); LegalRun(Step(c, n, ops[0]), n, ops[1..])))
  }

  ghost function After(c: Partition, n: nat, ops: seq<Op>): Partition
    requires WellFormed(c, n) && LegalRun(c, n, ops)
    decreases |ops|
  {
    if ops == [] then c
    else
      StepKeepsWellFormed(c, n, ops[0]);
      After(Step(c, n, ops[0]), n, ops[1..])
  }

  lemma StepKeepsWellFormed(c: Partition, n: nat, op: Op)
    requires WellFormed(c, n) && Legal(c, op)
    ensures WellFormed(Step(c, n, op), n)
  {
    match op
    case Alloc(request) =>
      NeedIsPow2(request);
      ScanIsFirstFit(c, n, Need(request), 0);
      var r := Scan(c, n, Need(request), 0);
      if r.Some? {
        assert ChunkOk(c, n, r.value);
        TakeKeepsValid(c, n, r.value, Need(request));
      }
    case Dealloc(p) =>
      if p.At? { ReleaseKeepsValid(c, n, p.word - 1); }
    case Write(_, _) =>
  }

  /** What each step of a run does to the allocated chunks. */
  lemma StepObserved(c: Partition, n: nat, op: Op)
    requires WellFormed(c, n) && Legal(c, op)
    ensures var before, after := Used(c), Used(Step(c, n, op));
            match op
            case Alloc(request) =>
              if request == 0 || !HasRoom(c, Need(request)) then after == before
              else exists o :: LowestFit(c, Need(request), o) && after == before[o := Need(request)]
            case Dealloc(p) => after == if p.Null? then before else before - {p.word - 1}
            case Write(_, _) => after == before
  {
    match op
    case Alloc(request) => AllocatedIsFirstFit(c, n, request);
    case Dealloc(p) => FreedRemovesOne(c, n, p);
    case Write(_, _) =>
  }

  /** Every reachable heap is a coalesced tiling. */
  lemma {:induction false} RunKeepsWellFormed(c: Partition, n: nat, ops: seq<Op>)
    requires WellFormed(c, n) && LegalRun(c, n, ops)
    ensures WellFormed(After(c, n, ops), n)
    decreases |ops|
  {
    if ops != [] {
      StepKeepsWellFormed(c, n, ops[0]);
      RunKeepsWellFormed(Step(c, n, ops[0]), n, ops[1..]);
    }
  }

  /** Once every block has been freed, in any order, the heap is what malloc_init wrote. */
  lemma DrainedHeapIsInitial(n: nat, ops: seq<Op>)
    requires 2 <= n && n % 2 == 0
    requires WellFormed(Decomposition(0, n), n) && LegalRun(Decomposition(0, n), n, ops)
    requires Used(After(Decomposition(0, n), n, ops)) == map[]
    ensures After(Decomposition(0, n), n, ops) == Decomposition(0, n)
  {
    RunKeepsWellFormed(Decomposition(0, n), n, ops);
    EmptyHeapIsInitial(After(Decomposition(0, n), n, ops), n);
  }

  /** A successful malloc followed by free of its result changes nothing. */
  lemma MallocFreeRestores(c: Partition, n: nat, request: word)
    requires WellFormed(c, n) && Need(request) != 0
    ensures var (p, d) := Allocated(c, n, request);
            Tiling(d, n) && Live(d, p) && Freed(d, n, p) == c
  {
    NeedIsPow2(request);
    ScanIsFirstFit(c, n, Need(request), 0);
    var r := Scan(c, n, Need(request), 0);
    if request != 0 && r.Some? {
      assert ChunkOk(c, n, r.value);
      TakeKeepsValid(c, n, r.value, Need(request));
      TakeReleaseRestores(c, n, r.value, Need(request));
    }
  }

  // ----- the four sizes that round to an empty chunk

  /** Once malloc has left a header of 1 (an allocated chunk of no words), no tiling has these
      header words any more. */
  lemma EmptyChunkCorrupts(before: seq<word>, after: seq<word>, c: Partition, n: nat, o: nat)
    requires Tiling(c, n) && n <= |before| == |after| && Describes(before, c)
    requires o in c && o < |after| && after[..o] == before[..o] && after[o] == 1
    ensures !Describable(after, n)
  {
    forall d | Tiling(d, n) ensures !Describes(after, d) {
      WalkReachesEmptyChunk(before, after, c, d, n, o, 0);
    }
  }

  /** Some tiling of the area has the header words of `mem`. */
  ghost predicate Describable(mem: seq<word>, n: nat) {
    exists d :: Tiling(d, n) && Describes(mem, d)
  }

  lemma {:induction false} WalkReachesEmptyChunk(before: seq<word>, after: seq<word>, c: Partition, d: Partition,
      n: nat, o: nat, from: nat)
    requires Tiling(c, n) && n <= |before| == |after| && Describes(before, c)
    requires o in c && after[..o] == before[..o] && after[o] == 1
    requires Tiling(d, n) && from in c && from in d && from <= o
    ensures !Describes(after, d)
    decreases o - from
  {
    assert ChunkOk(c, n, from) && ChunkOk(d, n, from) && ChunkOk(c, n, o);
    if Describes(after, d) {
      assert after[from] == Header(d[from]);
      if from < o {
        assert before[..o][from] == after[..o][from];
        ChunkSizeEven(c, n, from);
        ChunkSizeEven(d, n, from);
        assert c[from].size == d[from].size;
        WalkReachesEmptyChunk(before, after, c, d, n, o, from + c[from].size);
      }
    }
  }

  /** The area in words, rounded down to an even number. */
  function AreaWords(bytes: word): (n: nat)
    requires 8 <= bytes
    ensures 2 <= n <= 0x3FFF_FFFE && n % 2 == 0 && 4 * n <= bytes < 4 * n + 8
  {
    bytes / 4 - bytes / 4 % 2
  }

  lemma InitialPartition(n: nat) returns (d: Partition)
    requires 2 <= n && n % 2 == 0
    ensures d == Decomposition(0, n) && WellFormed(d, n) && Greedy(d, n)
    ensures d[0] == Chunk(FloorPow2(n), false)
  {
    DecompositionValid(n);
    DecompositionGreedy(0, n);
    d := Decomposition(0, n);
  }

  class Heap {
    var mem: array<word>        // mem_area
    var size: nat               // mem_area_size, in words
    ghost var chunks: Partition

    ghost predicate Headers()
      reads this, mem
    {
      && 2 <= size <= 0x3FFF_FFFE && size % 2 == 0 && size <= mem.Length
      && Tiling(chunks, size)
      && Describes(mem[..], chunks)
    }

    ghost predicate Valid()
      reads this, mem
    {
      Headers() && Coalesced(chunks, size)
    }

    /** malloc_init */
    constructor (start: array<word>, bytes: word)
      requires 8 <= bytes && bytes / 4 <= start.Length
      modifies start
      ensures mem == start && size == AreaWords(bytes)
      ensures Valid() && chunks == Decomposition(0, size)
    {
      mem := start;
      size := AreaWords(bytes);
      ghost var initial := InitialPartition(AreaWords(bytes));
      chunks := initial;
      new;
      var s := KeepHighestBit(size);
      MarkFree(s);
    }

    /** The header-writing loop of malloc_init. */
    method MarkFree(first: nat)
      requires 2 <= size <= 0x3FFF_FFFE && size <= mem.Length
      requires Tiling(chunks, size) && Greedy(chunks, size) && chunks[0] == Chunk(first, false)
      modifies mem
      ensures Describes(mem[..], chunks)
    {
      var ptr: nat, s: nat := 0, first;
      while true
        invariant ptr in chunks && chunks[ptr] == Chunk(s, false)
        invariant forall o :: o in chunks && o < ptr ==> mem[o] == Header(chunks[o])
        decreases size - ptr
      {
        assert ChunkOk(chunks, size, ptr);
        mem[ptr] := s;
        if ptr + s >= size {
          break;
        }
        ptr := ptr + s;
        s := HalveToFit(s, size - ptr);
        SameBracket(s, chunks[ptr].size, size - ptr);
      }
    }

    /** malloc. For requests whose rounding does not wrap to an empty chunk it behaves as the
        plain scan; see `EmptyChunkCorrupts` for the four sizes that do. */
    method Malloc(request: word) returns (p: Pointer)
      requires Valid()
      modifies mem, this`chunks
      ensures Describable(mem[..], size) <==> (Need(request) != 0 || p.Null?)
      ensures Need(request) != 0 ==> Valid() && (p, chunks) == Allocated(old(chunks), size, request)
      ensures Need(request) != 0 ==> (p.Null? <==> request == 0 || !HasRoom(old(chunks), Need(request)))
      ensures Need(request) != 0 && p.At? ==>
        && p.word > 0 && LowestFit(old(chunks), Need(request), p.word - 1)
        && Used(chunks) == Used(old(chunks))[p.word - 1 := Need(request)]
      ensures request == 0 ==> p.Null?
      ensures p.Null? ==> mem[..] == old(mem[..]) && chunks == old(chunks)
      ensures forall i :: 0 <= i < mem.Length && InPayload(old(chunks), i) ==> mem[i] == old(mem[i])
    {
      if Need(request) != 0 { AllocatedIsFirstFit(chunks, size, request); }
      if request == 0 {
        return Null;
      }
      var high := KeepHighestBit((request + 7) % 0x1_0000_0000 / 4);
      var need := 2 * high;
      if need > 0 { NeedIsPow2(request); }
      var found := Search(need);
      if found.None? {
        return Null;
      }
      ScanIsFirstFit(chunks, size, need, 0);
      assert ChunkOk(chunks, size, found.value);
      FreeChunkHasNoPayload(chunks, size, found.value);
      Carve(found.value, need);
      p := At(found.value + 1);
    }

    /** Isolates `need` words of the free chunk at `ptr` and marks them allocated. */
    method Carve(ptr: nat, need: nat)
      requires Valid() && ptr in chunks && ChunkOk(chunks, size, ptr) && Fits(chunks[ptr], need)
      requires need > 0 ==> IsPow2(need) && 2 <= need
      modifies mem, this`chunks
      ensures need > 0 ==> Valid() && chunks == Take(old(chunks), ptr, need)
      ensures need == 0 ==> !Describable(mem[..], size)
      ensures forall i :: 0 <= i < mem.Length && !(ptr <= i < ptr + old(chunks)[ptr].size) ==> mem[i] == old(mem[i])
    {
      if need > 0 {
        TakeKeepsValid(chunks, size, ptr, need);
        assert CoalescedAround(chunks, size, ptr);
        SplitKeepsRest(chunks, size, ptr, need);
      }
      ghost var before := mem[..];
      Isolate(ptr, need);
      SetWord(ptr, mem[ptr] + 1);
      if need > 0 {
        chunks := chunks[ptr := Chunk(need, true)];
      } else {
        EmptyChunkCorrupts(before, mem[..], chunks, size, ptr);
      }
    }

    /** The stride-skipping search loop agrees with the plain scan of every chunk. */
    method Search(need: nat) returns (r: Option<nat>)
      requires Valid() && (need == 0 || IsPow2(need))
      ensures r == Scan(chunks, size, need, 0)
    {
      hide IsPow2, Aligned;
      if need > 0 { ZeroAligned(need); }
      var ptr: nat := 0;
      assert ChunkOk(chunks, size, ptr);
      while mem[ptr] % 2 == 1 || mem[ptr] < need
        invariant ptr in chunks && ChunkOk(chunks, size, ptr)
        invariant need > 0 ==> Aligned(ptr, need)
        invariant NoFitBetween(chunks, need, 0, ptr)
        decreases size - ptr
      {
        ChunkSizeEven(chunks, size, ptr);
        var stride: nat := mem[ptr] - mem[ptr] % 2;
        if stride < need {
          stride := need;
        }
        if need > 0 { StrideIsSafe(chunks, size, need, ptr); }
        if ptr + stride >= size {
          ScanUnique(chunks, size, need, None);
          return None;
        }
        ptr := ptr + stride;
        assert ChunkOk(chunks, size, ptr);
      }
      ChunkSizeEven(chunks, size, ptr);
      ScanUnique(chunks, size, need, Some(ptr));
      return Some(ptr);
    }

    method SetWord(i: nat, value: word)
      requires i < mem.Length
      modifies mem
      ensures mem[..] == old(mem[..])[i := value]
    {
      mem[i] := value;
    }

    /** The loop that halves the chunk at `ptr` down to `need` words. */
    method Isolate(ptr: nat, need: nat)
      requires Valid() && ptr in chunks && ChunkOk(chunks, size, ptr) && Fits(chunks[ptr], need)
      requires need > 0 ==> IsPow2(need) && 2 <= need
      modifies mem, this`chunks
      ensures need > 0 ==> Headers() && chunks == Split(old(chunks), ptr, need)
      ensures need == 0 ==> chunks == old(chunks)
      ensures mem[ptr] == need
      ensures forall i :: 0 <= i < mem.Length && !(ptr <= i < ptr + old(chunks)[ptr].size) ==> mem[i] == old(mem[i])
    {
      while mem[ptr] > need
        invariant need > 0 ==>
          Headers() && ptr in chunks && ChunkOk(chunks, size, ptr) && chunks[ptr] == Chunk(mem[ptr], false)
        invariant need > 0 ==> need <= mem[ptr] && Split(chunks, ptr, need) == Split(old(chunks), ptr, need)
        invariant need == 0 ==> chunks == old(chunks)
        invariant mem[ptr] <= old(chunks)[ptr].size
        invariant forall i :: 0 <= i < mem.Length && !(ptr <= i < ptr + old(chunks)[ptr].size) ==> mem[i] == old(mem[i])
        decreases mem[ptr]
      {
        if need > 0 { Pow2Gap(need, mem[ptr]); }
        HalveOnce(ptr, need > 0);
      }
    }

    /** One turn of the halving loop. With `whole`, the headers describe chunks before and after. */
    method HalveOnce(ptr: nat, ghost whole: bool)
      requires ptr < mem.Length && ptr + mem[ptr] <= mem.Length && 0 < mem[ptr]
      requires whole ==> Headers() && ptr in chunks && ChunkOk(chunks, size, ptr)
      requires whole ==> chunks[ptr] == Chunk(mem[ptr], false) && mem[ptr] > 2
      modifies mem, this`chunks
      ensures mem[ptr] == old(mem[ptr]) / 2
      ensures whole ==> Headers() && chunks == Halve(old(chunks), ptr) && ptr in chunks && ChunkOk(chunks, size, ptr)
      ensures whole ==> chunks[ptr] == Chunk(mem[ptr], false)
      ensures !whole ==> chunks == old(chunks)
      ensures forall i :: 0 <= i < mem.Length && !(ptr <= i < ptr + old(mem[ptr])) ==> mem[i] == old(mem[i])
    {
      if whole {
        HalveDescribed(mem[..], chunks, size, ptr);
        chunks := Halve(chunks, ptr);
      }
      SetWord(ptr, mem[ptr] / 2);
      SetWord(ptr + mem[ptr], mem[ptr]);
    }

    /** free. A non-null argument must be a live pointer, as in C. */
    method Free(p: Pointer)
      requires Valid() && Live(chunks, p)
      modifies mem, this`chunks
      ensures Valid() && chunks == Freed(old(chunks), size, p)
      ensures Used(chunks) == if p.Null? then Used(old(chunks)) else Used(old(chunks)) - {p.word - 1}
      ensures forall i :: 0 <= i < mem.Length && i !in old(chunks) ==> mem[i] == old(mem[i])
    {
      hide IsPow2, Aligned;
      FreedRemovesOne(chunks, size, p);
      if p.Null? {
        return;
      }
      var ptr := p.word - 1;
      assert ChunkOk(chunks, size, ptr);
      ReleaseKeepsValid(chunks, size, ptr);
      RemarkKeepsTiling(chunks, size, ptr, false);
      ChunkSizeEven(chunks, size, ptr);
      mem[ptr] := mem[ptr] - mem[ptr] % 2;
      chunks := chunks[ptr := Chunk(chunks[ptr].size, false)];
      Coalesce(ptr);
    }

    /** The merge loop of free. */
    method Coalesce(start: nat)
      requires Headers() && start in chunks && !chunks[start].used
      modifies mem, this`chunks
      ensures Headers() && chunks == Merge(old(chunks), size, start)
      ensures forall i :: 0 <= i < mem.Length && i !in old(chunks) ==> mem[i] == old(mem[i])
    {
      var ptr := start;
      while true
        invariant Headers() && ptr in chunks && !chunks[ptr].used && ChunkOk(chunks, size, ptr)
        invariant Merge(chunks, size, ptr) == Merge(old(chunks), size, start)
        invariant chunks.Keys <= old(chunks).Keys
        invariant forall i :: 0 <= i < mem.Length && i !in old(chunks) ==> mem[i] == old(mem[i])
        decreases size - chunks[ptr].size
      {
        var twin := Xor(ptr, mem[ptr]);
        TwinWordDecides(mem[..], chunks, size, ptr);
        if twin >= size {
          return;
        }
        if mem[twin] != mem[ptr] {
          return;
        }
        ptr := MergeOnce(ptr, twin);
      }
    }

    /** One turn of the merge loop, its tests passed. */
    method MergeOnce(at: nat, twin: nat) returns (ptr: nat)
      requires Headers() && at in chunks && ChunkOk(chunks, size, at)
      requires Mergeable(chunks, at) && twin == Twin(at, chunks[at].size)
      modifies mem, this`chunks
      ensures Headers() && chunks == Join(old(chunks), at) && ptr == Lower(at, old(chunks)[at].size)
      ensures ptr in chunks && chunks[ptr] == Chunk(2 * old(chunks)[at].size, false) && ChunkOk(chunks, size, ptr)
      ensures chunks.Keys <= old(chunks).Keys
      ensures forall i :: 0 <= i < mem.Length && i !in old(chunks) ==> mem[i] == old(mem[i])
    {
      JoinDescribed(mem[..], chunks, size, at);
      chunks := Join(chunks, at);
      ptr := at;
      if twin < ptr {
        ptr := twin;
      }
      SetWord(ptr, mem[ptr] * 2);
    }

    /** A user overwrites a word of an allocated block. */
    method Store(at: nat, value: word)
      requires Valid() && InPayload(chunks, at)
      modifies mem
      ensures Valid() && at < mem.Length && mem[..] == old(mem[..])[at := value]
    {
      PayloadIsNoHeader(chunks, size, at);
      mem[at] := value;
    }

    /** Any client: allocations, frees of live pointers and stores into live payloads, in any
        order. The headers keep describing the partition that the reference operations give. */
    method Run(ops: seq<Op>)
      requires Valid() && LegalRun(chunks, size, ops)
      modifies mem, this`chunks
      ensures Valid() && chunks == After(old(chunks), size, ops)
    {
      for i := 0 to |ops|
        invariant Valid() && LegalRun(chunks, size, ops[i..])
        invariant After(chunks, size, ops[i..]) == After(old(chunks), size, ops)
      {
        assert ops[i..][0] == ops[i] && ops[i..][1..] == ops[i + 1..];
        StepKeepsWellFormed(chunks, size, ops[i]);
        match ops[i]
        case Alloc(request) => var _ := Malloc(request);
        case Dealloc(p) => Free(p);
        case Write(at, value) => Store(at, value);
      }
    }
  }
}
