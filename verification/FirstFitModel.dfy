/**
 What `mm_init`, `mm_malloc`, `mm_free` and `mm_realloc` of the first-fit allocator do to the block
 list, and what holds after every run of calls.
 */
module FirstFitModel {
  import opened BlockList
  import opened Machine
  import opened Requests
  import opened Serving

  /** The index of the lowest free block of at least `asize` bytes, or the number of blocks. */
  function FirstFit(bs: seq<Block>, asize: int): (i: nat)
    ensures i <= |bs|
    ensures i < |bs| ==> !bs[i].alloc && asize <= bs[i].size
    ensures forall j :: 0 <= j < i ==> bs[j].alloc || bs[j].size < asize
  {
    if bs == [] || (!bs[0].alloc && asize <= bs[0].size) then 0 else 1 + FirstFit(bs[1..], asize)
  }

  /** A pointer and the heap it is in; or a pointer for a request that was not treated as asked. */
  datatype Reply = Reply(heap: Heap, ptr: int) | Misled(ptr: int)

  function Init(limit: int): Heap {
    var h := Heap([], FIRST_BP);
    if FIRST_BP + CHUNKSIZE <= limit then Grow(h, CHUNKSIZE) else h
  }

  /** `mm_malloc` initialises the heap on first use and ignores whether that fully succeeded. */
  function Ready(h: Heap, sys: System): Heap {
    if h.brk == 0 then Init(sys.limit) else h
  }

  /** The block `find_fit` gives for a request, or the number of blocks. */
  function FoundFor(h: Heap, sys: System, size: nat): (i: nat)
    ensures i <= |h.blocks|
  {
    FirstFit(h.blocks, Adjust(sys.width, size))
  }

  /** The request is treated as asked. */
  predicate AsAsked(h: Heap, sys: System, size: nat) { size == 0 || Honest(h, sys, size, FoundFor(h, sys, size)) }

  function Malloc(h0: Heap, sys: System, size: nat): Reply {
    var h := Ready(h0, sys);
    var i := FoundFor(h, sys, size);
    var ptr := Pointer(h, sys, size, i);
    if AsAsked(h, sys, size) then Reply(Served(h, sys, size, i), ptr) else Misled(ptr)
  }

  /** Where `mm_malloc` puts the break. */
  function BreakAfter(h0: Heap, sys: System, size: nat): int {
    var h := Ready(h0, sys);
    Break(h, sys, size, FoundFor(h, sys, size))
  }

  function Free(h: Heap, p: int): Heap {
    var i := IndexOf(h.blocks, p);
    if p == 0 || i == |h.blocks| then h else Heap(FreeAt(h.blocks, i), h.brk)
  }

  function Realloc(h: Heap, sys: System, p: int, size: nat): Reply {
    if size == 0 then Reply(Free(h, p), 0)
    else
      var r := Malloc(h, sys, size);
      if p == 0 || r.ptr == 0 || r.Misled? then r else Reply(Free(r.heap, p), r.ptr)
  }

  ghost predicate Ok(h: Heap, sys: System) {
    && Sane(sys)
    && if h.brk == 0 then h.blocks == [] else WellFormed(h) && h.brk <= sys.limit
  }

  // ---------------------------------------------------------------- single calls

  lemma InitOk(limit: int)
    requires FIRST_BP <= limit
    ensures WellFormed(Init(limit)) && FIRST_BP <= Init(limit).brk <= limit && Live(Init(limit).blocks) == {}
    ensures Init(limit).brk == if FIRST_BP + CHUNKSIZE <= limit then FIRST_BP + CHUNKSIZE else FIRST_BP
  {
    var h := Heap([], FIRST_BP);
    assert Live(h.blocks) == {};
    GrowKeeps(h, CHUNKSIZE);
  }

  lemma ReadyOk(h: Heap, sys: System)
    requires Ok(h, sys)
    ensures WellFormed(Ready(h, sys)) && FIRST_BP <= Ready(h, sys).brk <= sys.limit
    ensures Live(Ready(h, sys).blocks) == Live(h.blocks)
  {
    InitOk(sys.limit);
    var r := Ready(h, sys);
    TilesBounds(r.blocks, FIRST_BP, r.brk);
  }

  lemma FitSearched(h: Heap, sys: System, size: nat)
    ensures Searched(h, FoundFor(h, sys, size), Adjust(sys.width, size))
  {
    hide Adjust;
  }

  lemma ReplyExactly(h: Heap, sys: System, size: nat)
    ensures Malloc(h, sys, size).Reply? <==> AsAsked(Ready(h, sys), sys, size)
  {}

  lemma ZeroGivesNull(h: Heap, sys: System)
    ensures Malloc(h, sys, 0) == Reply(Ready(h, sys), 0)
  {}

  /** Every request treated as asked. */
  lemma MallocAllocates(h: Heap, sys: System, size: nat)
    requires Ok(h, sys) && size < sys.width.Modulus() && Malloc(h, sys, size).Reply?
    ensures var r := Malloc(h, sys, size);
      && Ok(r.heap, sys) && r.heap.brk != 0
      && (r.ptr == 0 ==> r.heap == Ready(h, sys))
      && (r.ptr != 0 ==> Allocates(h, r.heap, r.ptr, size) && size > 0)
  {
    hide Allocates, Honest, Served, Pointer, FoundFor;
    ReadyOk(h, sys);
    if size == 0 {
      ZeroGivesNull(h, sys);
    } else {
      var h1 := Ready(h, sys);
      FitSearched(h1, sys, size);
      HonestServed(h, h1, sys, size, FoundFor(h1, sys, size));
    }
  }

  /**
   `mm_malloc` keeps its promise (NULL, or a pointer with `size` bytes below the end of the region,
   and the break in the region) exactly for the requests it treats as asked.
   */
  lemma HonestExactly(h: Heap, sys: System, size: nat)
    requires Ok(h, sys) && size < sys.width.Modulus()
    ensures Kept(sys, size, Malloc(h, sys, size).ptr, BreakAfter(h, sys, size)) <==> AsAsked(Ready(h, sys), sys, size)
  {
    hide Honest, Served, Pointer, Break, FoundFor, Kept;
    ReadyOk(h, sys);
    var h1 := Ready(h, sys);
    FitSearched(h1, sys, size);
    KeptExactly(h1, sys, size, FoundFor(h1, sys, size));
  }

  /** So does `mm_realloc` to a non-zero size, whatever the pointer. */
  lemma ReallocExactly(h: Heap, sys: System, p: int, size: nat)
    requires Ok(h, sys) && 0 < size < sys.width.Modulus()
    ensures Kept(sys, size, Realloc(h, sys, p, size).ptr, BreakAfter(h, sys, size)) <==> AsAsked(Ready(h, sys), sys, size)
  {
    hide Malloc, BreakAfter, AsAsked, Kept;
    HonestExactly(h, sys, size);
  }

  /** A request that is misled: which of the two runs past the end of the region. */
  lemma MisledOverruns(h: Heap, sys: System, size: nat)
    requires Ok(h, sys) && size < sys.width.Modulus() && Malloc(h, sys, size).Misled?
    ensures var h1 := Ready(h, sys);
      && Malloc(h, sys, size).ptr >= FIRST_BP
      && if GoesAstray(h1, sys, size, FoundFor(h1, sys, size)) then BreakAfter(h, sys, size) > sys.limit
         else Malloc(h, sys, size).ptr + size > sys.limit && BreakAfter(h, sys, size) <= sys.limit
  {
    hide Honest, Pointer, Break, FoundFor, GoesAstray;
    ReadyOk(h, sys);
    var h1 := Ready(h, sys);
    FitSearched(h1, sys, size);
    DishonestOverruns(h1, sys, size, FoundFor(h1, sys, size));
  }

  /** `mm_malloc` gives NULL exactly for size 0, or when nothing fits and `mem_sbrk` refuses the amount it is given. */
  lemma MallocNullExactly(h: Heap, sys: System, size: nat)
    requires Ok(h, sys) && size < sys.width.Modulus()
    ensures Malloc(h, sys, size).ptr == 0 <==>
      size == 0
      || ((forall b :: b in Ready(h, sys).blocks && !b.alloc ==> b.size < Adjust(sys.width, size))
          && !SbrkAccepts(sys, Ready(h, sys).brk, Increment(sys.width, size)))
  {
    hide Adjust, ToInt32, Pointer, Honest, Served, Address;
    var h1, i := Ready(h, sys), FoundFor(Ready(h, sys), sys, size);
    ReadyOk(h, sys);
    NullExactly(h1, sys, size, i);
    if i < |h1.blocks| { assert h1.blocks[i] in h1.blocks; }
  }

  /** For a request treated as asked that does not wrap, that is when growing by max(adjusted size, 4096) would pass the limit. */
  lemma HonestNullExactly(h: Heap, sys: System, size: nat)
    requires Ok(h, sys) && size < sys.width.Modulus()
    requires !Wraps(sys.width, size) && AsAsked(Ready(h, sys), sys, size)
    ensures Malloc(h, sys, size).ptr == 0 <==>
      size == 0
      || ((forall b :: b in Ready(h, sys).blocks && !b.alloc ==> b.size < Adjust(sys.width, size))
          && Ready(h, sys).brk + GrowBy(Adjust(sys.width, size)) > sys.limit)
  {
    hide Malloc, Adjust, GrowBy, ToInt32, Address;
    var h1 := Ready(h, sys);
    ReadyOk(h, sys);
    MallocNullExactly(h, sys, size);
    if size > 0 {
      var i := FoundFor(h1, sys, size);
      if i < |h1.blocks| { assert h1.blocks[i] in h1.blocks; } else { HonestGrowth(h1, sys, size); }
    }
  }

  /**
   A request of 2^32 - 8 bytes with a 64-bit `size_t`: `mem_sbrk` is asked for 0 bytes and agrees,
   and the break itself comes back, on every initialised heap.
   */
  lemma FourGigabyteRequest(h: Heap, sys: System)
    requires Ok(h, sys) && h.brk != 0 && sys.width == Bits64
    ensures Malloc(h, sys, TWO32 - 8) == Misled(h.brk)
  {
    TilesBounds(h.blocks, FIRST_BP, h.brk);
    assert ((TWO32 - 8 + 15) % TWO64) / 8 == TWO32 / 8;
    assert Adjust(Bits64, TWO32 - 8) == TWO32;
    AcceptsExactly(sys, h.brk, 0);
    FitSearched(h, sys, TWO32 - 8);
  }

  /** The block handed out is at the lowest address where a free block can hold the request. */
  lemma MallocTakesLowest(h: Heap, sys: System, size: nat, b: Block)
    requires Ok(h, sys) && 0 < size < sys.width.Modulus()
    requires b in Ready(h, sys).blocks && !b.alloc && Adjust(sys.width, size) <= b.size
    ensures 0 < Malloc(h, sys, size).ptr <= b.bp
    ensures Malloc(h, sys, size).Reply? ==> Malloc(h, sys, size).heap.brk == Ready(h, sys).brk
  {
    var h1 := Ready(h, sys);
    ReadyOk(h, sys);
    TilesBounds(h1.blocks, FIRST_BP, h1.brk);
    var k :| 0 <= k < |h1.blocks| && h1.blocks[k] == b;
    assert FirstFit(h1.blocks, Adjust(sys.width, size)) <= k;
  }

  /**
   When no free block can hold the request the heap grows, by the request with header and footer, rounded
   up to 8, or by one chunk if that is more; the block handed out starts at the free last block or at the old break.
   */
  lemma MallocGrowsExactly(h: Heap, sys: System, size: nat)
    requires Ok(h, sys) && 0 < size < sys.width.Modulus() && AsAsked(Ready(h, sys), sys, size)
    requires forall b :: b in Ready(h, sys).blocks && !b.alloc ==> b.size < Adjust(sys.width, size)
    requires Malloc(h, sys, size).ptr != 0
    ensures var h1, r := Ready(h, sys), Malloc(h, sys, size);
      var g := r.heap.brk - h1.brk;
      && g % 8 == 0 && g >= CHUNKSIZE && g >= size + 8 && (g == CHUNKSIZE || g < size + 16)
      && r.ptr == (if LastFree(h1.blocks) then h1.blocks[|h1.blocks| - 1].bp else h1.brk)
  {
    hide Adjust, Honest, Served, Pointer, LastFree;
    var h1 := Ready(h, sys);
    ReadyOk(h, sys);
    FitSearched(h1, sys, size);
    assert forall k :: 0 <= k < |h1.blocks| ==> h1.blocks[k] in h1.blocks;
    ServedWhere(h1, sys, size, FoundFor(h1, sys, size));
  }

  ghost predicate Owns(h: Heap, p: int) {
    exists b :: b in Live(h.blocks) && b.bp == p
  }

  lemma FreeReleases(h: Heap, sys: System, p: int)
    requires Ok(h, sys) && h.brk != 0 && Owns(h, p)
    ensures Ok(Free(h, p), sys) && Free(h, p).brk == h.brk
    ensures Live(Free(h, p).blocks) == set b | b in Live(h.blocks) && b.bp != p
  {
    hide Tiles, Coalesced, IndexOf, FreeAt;
    var b :| b in Live(h.blocks) && b.bp == p;
    PointerFinds(h, b);
    TilesBounds(h.blocks, FIRST_BP, h.brk);
    FreeKeeps(h, IndexOf(h.blocks, p));
    forall c | c in Live(h.blocks) && c.bp == p ensures c == b { PointerFinds(h, c); }
  }

  /** Freeing what was just allocated restores the heap, unless the allocation had to grow it. */
  lemma FreeUndoesMalloc(h: Heap, sys: System, size: nat)
    requires Ok(h, sys) && h.brk != 0 && size < sys.width.Modulus()
    ensures var r := Malloc(h, sys, size);
      r.Reply? && r.heap.brk == h.brk ==> Free(r.heap, r.ptr) == h
  {
    var r := Malloc(h, sys, size);
    if r.Reply? { MallocAllocates(h, sys, size); }
    if r.Reply? && r.ptr != 0 && r.heap.brk == h.brk {
      var b := BlockAt(r.heap, r.ptr);
      assert b in Live(r.heap.blocks);
      FreeReleases(r.heap, sys, r.ptr);
      var f := Free(r.heap, r.ptr);
      forall c | c in Live(h.blocks) ensures c.bp != r.ptr {
        if c.bp == r.ptr { SamePointer(r.heap, c, b); }
      }
      assert Live(f.blocks) == Live(h.blocks);
      Canonical(f.blocks, h.blocks, FIRST_BP, h.brk);
    }
  }

  /**
   `mm_realloc` of a live block: size 0 frees it; NULL leaves the heap as it is; and otherwise the live
   blocks are the old ones without it and one new one with room for the size.
   */
  lemma ReallocMoves(h: Heap, sys: System, p: int, size: nat)
    requires Ok(h, sys) && h.brk != 0 && Owns(h, p) && size < sys.width.Modulus() && AsAsked(h, sys, size)
    ensures var r := Realloc(h, sys, p, size); var others := set b | b in Live(h.blocks) && b.bp != p;
      && r.Reply? && Ok(r.heap, sys)
      && (size == 0 ==> r.ptr == 0 && Live(r.heap.blocks) == others)
      && (size > 0 && r.ptr == 0 ==> r.heap == h)
      && (r.ptr != 0 ==>
            exists b :: b !in Live(h.blocks) && b.bp == r.ptr && size <= b.size - 8 && Live(r.heap.blocks) == others + {b})
  {
    hide Malloc, AsAsked, Free, Tiles, Coalesced, IndexOf;
    FreeReleases(h, sys, p);
    assert p != 0 by { OwnedNotNull(h, p); }
    if size > 0 {
      ReplyExactly(h, sys, size);
      MallocAllocates(h, sys, size);
      var r := Malloc(h, sys, size);
      if r.ptr != 0 {
        var b := BlockAt(r.heap, r.ptr);
        var x := OwnedBlock(h, p);
        assert b in Live(r.heap.blocks) && x in Live(r.heap.blocks);
        if b.bp == p { SamePointer(r.heap, b, x); }
        assert Owns(r.heap, p);
        FreeReleases(r.heap, sys, p);
      }
    }
  }

  lemma OwnedBlock(h: Heap, p: int) returns (b: Block)
    requires Owns(h, p)
    ensures b in Live(h.blocks) && b.bp == p
  {
    b :| b in Live(h.blocks) && b.bp == p;
  }

  lemma OwnedNotNull(h: Heap, p: int)
    requires WellFormed(h) && Owns(h, p)
    ensures p >= FIRST_BP
  {
    TilesBounds(h.blocks, FIRST_BP, h.brk);
  }

  // ---------------------------------------------------------------- runs of calls

  datatype Call = CallMalloc(size: nat) | CallFree(p: int) | CallRealloc(p: int, size: nat)

  /** A heap and what its client holds: for each live pointer the size that was asked for. */
  datatype Client = Client(heap: Heap, owned: map<int, nat>)

  ghost predicate LegalPointer(c: Client, p: int) { p == 0 || p in c.owned }

  ghost predicate LegalSize(c: Client, sys: System, size: nat) {
    size < sys.width.Modulus() && AsAsked(Ready(c.heap, sys), sys, size)
  }

  ghost predicate Legal(c: Client, sys: System, call: Call) {
    match call
    case CallMalloc(size) => LegalSize(c, sys, size)
    case CallFree(p) => LegalPointer(c, p)
    case CallRealloc(p, size) => LegalPointer(c, p) && LegalSize(c, sys, size)
  }

  function Give(c: Client, r: Reply, size: nat): Client
    requires r.Reply?
  {
    Client(r.heap, if r.ptr == 0 then c.owned else c.owned[r.ptr := size])
  }

  function Take(c: Client, p: int): Client {
    Client(Free(c.heap, p), c.owned - {p})
  }

  /** One legal call; a misled request ends what can be said about the heap. */
  function Step(c: Client, sys: System, call: Call): Client {
    match call
    case CallMalloc(size) =>
      var r := Malloc(c.heap, sys, size);
      if r.Misled? then c else Give(c, r, size)
    case CallFree(p) => Take(c, p)
    case CallRealloc(p, size) =>
      if size == 0 then Take(c, p)
      else
        var r := Malloc(c.heap, sys, size);
        if r.Misled? then c else if r.ptr == 0 then Give(c, r, size) else Take(Give(c, r, size), p)
  }

  function Run(c: Client, sys: System, calls: seq<Call>): Client
    decreases |calls|
  {
    if calls == [] then c else Run(Step(c, sys, calls[0]), sys, calls[1..])
  }

  ghost predicate LegalRun(c: Client, sys: System, calls: seq<Call>)
    decreases |calls|
  {
    calls == [] || (Legal(c, sys, calls[0]) && LegalRun(Step(c, sys, calls[0]), sys, calls[1..]))
  }

  /** The client's pointers are the live blocks, each with room for what was asked. */
  ghost predicate Backed(c: Client) {
    && (forall b :: b in Live(c.heap.blocks) ==> b.bp in c.owned && c.owned[b.bp] <= b.size - 8)
    && (forall p :: p in c.owned ==> p != 0 && Owns(c.heap, p))
  }

  ghost predicate Inv(c: Client, sys: System) { Ok(c.heap, sys) && Backed(c) }

  /** A reply that allocates, or changes no live block, keeps the client's pointers backed; a new pointer is new. */
  lemma GiveBacked(c: Client, r: Reply, size: nat)
    requires Backed(c) && r.Reply?
    requires r.ptr == 0 ==> Live(r.heap.blocks) == Live(c.heap.blocks)
    requires r.ptr != 0 ==> Allocates(c.heap, r.heap, r.ptr, size)
    ensures Backed(Give(c, r, size)) && (r.ptr != 0 ==> r.ptr !in c.owned)
  {
    hide IndexOf, Tiles, Coalesced, BlockAt;
    var c' := Give(c, r, size);
    forall p | p in c.owned ensures Owns(c'.heap, p) && (r.ptr != 0 ==> p != r.ptr) {
      var x :| x in Live(c.heap.blocks) && x.bp == p;
      assert x in Live(c'.heap.blocks);
      if r.ptr != 0 {
        assert BlockAt(r.heap, r.ptr) in Live(c'.heap.blocks);
        if p == r.ptr { SamePointer(r.heap, x, BlockAt(r.heap, r.ptr)); }
      }
    }
    if r.ptr != 0 { assert BlockAt(r.heap, r.ptr) in Live(c'.heap.blocks); }
  }

  lemma GiveKeeps(c: Client, sys: System, size: nat)
    requires Inv(c, sys) && LegalSize(c, sys, size)
    ensures Malloc(c.heap, sys, size).Reply? && Inv(Give(c, Malloc(c.heap, sys, size), size), sys)
    ensures Malloc(c.heap, sys, size).ptr != 0 ==> Malloc(c.heap, sys, size).ptr !in c.owned
  {
    hide Malloc, Backed, Allocates, Ready, AsAsked;
    ReplyExactly(c.heap, sys, size);
    MallocAllocates(c.heap, sys, size);
    ReadyOk(c.heap, sys);
    GiveBacked(c, Malloc(c.heap, sys, size), size);
  }

  lemma TakeKeeps(c: Client, sys: System, p: int)
    requires Inv(c, sys) && LegalPointer(c, p)
    ensures Inv(Take(c, p), sys)
  {
    var c' := Take(c, p);
    if p == 0 {
      assert c' == c;
    } else {
      FreeReleases(c.heap, sys, p);
      forall q | q in c'.owned ensures Owns(c'.heap, q) {
        var x :| x in Live(c.heap.blocks) && x.bp == q;
        assert x in Live(c'.heap.blocks);
      }
    }
  }

  lemma StepKeeps(c: Client, sys: System, call: Call)
    requires Inv(c, sys) && Legal(c, sys, call)
    ensures Inv(Step(c, sys, call), sys)
  {
    match call
    case CallMalloc(size) => GiveKeeps(c, sys, size);
    case CallFree(p) => TakeKeeps(c, sys, p);
    case CallRealloc(p, size) =>
      if size == 0 {
        TakeKeeps(c, sys, p);
      } else {
        GiveKeeps(c, sys, size);
        var r := Malloc(c.heap, sys, size);
        if r.ptr != 0 { TakeKeeps(Give(c, r, size), sys, p); }
      }
  }

  lemma {:induction false} RunKeeps(c: Client, sys: System, calls: seq<Call>)
    requires Inv(c, sys) && LegalRun(c, sys, calls)
    ensures Inv(Run(c, sys, calls), sys)
    decreases |calls|
  {
    if calls != [] {
      StepKeeps(c, sys, calls[0]);
      RunKeeps(Step(c, sys, calls[0]), sys, calls[1..]);
    }
  }

  const START: Client := Client(Heap([], 0), map[])

  lemma StartInv(sys: System)
    requires Sane(sys)
    ensures Inv(START, sys)
  {
    assert Live(START.heap.blocks) == {};
  }

  predicate Disjoint(p: int, n: int, q: int, m: int) { p + n <= q || q + m <= p }

  lemma LiveApart(h: Heap, x: Block, y: Block)
    requires WellFormed(h) && x in h.blocks && y in h.blocks && x != y
    ensures Disjoint(x.bp, x.size, y.bp, y.size) && x.bp != y.bp
  {
    TilesBounds(h.blocks, FIRST_BP, h.brk);
    var i :| 0 <= i < |h.blocks| && h.blocks[i] == x;
    var j :| 0 <= j < |h.blocks| && h.blocks[j] == y;
    assert i < j || j < i;
  }

  lemma LiveInside(h: Heap, b: Block)
    requires WellFormed(h) && b in h.blocks
    ensures b.bp % 8 == 0 && FIRST_BP <= b.bp && b.End() <= h.brk && b.size >= MIN_BLOCK
  {
    TilesBounds(h.blocks, FIRST_BP, h.brk);
  }

  ghost function BlockOf(c: Client, p: int): (b: Block)
    requires Backed(c) && p in c.owned
    ensures b in Live(c.heap.blocks) && b.bp == p && c.owned[p] <= b.size - 8
  {
    var b :| b in Live(c.heap.blocks) && b.bp == p; b
  }

  /** The client's payloads are aligned, inside the heap, as large as asked for and disjoint. */
  ghost predicate Safe(c: Client, sys: System) {
    && (forall p :: p in c.owned ==>
          (sys.base + p) % 8 == 0 && FIRST_BP <= p && p + c.owned[p] <= c.heap.brk - 8 && c.heap.brk <= sys.limit)
    && (forall p, q :: p in c.owned && q in c.owned && p != q ==> Disjoint(p, c.owned[p] + 8, q, c.owned[q] + 8))
  }

  lemma BackedSafe(c: Client, sys: System)
    requires Inv(c, sys)
    ensures Safe(c, sys)
  {
    hide Tiles, Coalesced, Backed;
    forall p | p in c.owned
      ensures (sys.base + p) % 8 == 0 && FIRST_BP <= p && p + c.owned[p] <= c.heap.brk - 8 && c.heap.brk <= sys.limit
    {
      OwnerInitialised(c, p);
      LiveInside(c.heap, BlockOf(c, p));
    }
    forall p, q | p in c.owned && q in c.owned && p != q
      ensures Disjoint(p, c.owned[p] + 8, q, c.owned[q] + 8)
    {
      OwnerInitialised(c, p);
      LiveApart(c.heap, BlockOf(c, p), BlockOf(c, q));
    }
  }

  lemma OwnerInitialised(c: Client, p: int)
    requires Backed(c) && p in c.owned
    ensures c.heap.blocks != []
  {
    assert BlockOf(c, p) in c.heap.blocks;
  }

  /** In every reachable state the client's payloads are aligned, inside the heap and disjoint. */
  lemma RunSafe(sys: System, calls: seq<Call>)
    requires Sane(sys) && LegalRun(START, sys, calls)
    ensures Safe(Run(START, sys, calls), sys)
  {
    RunKeeps(START, sys, calls);
    BackedSafe(Run(START, sys, calls), sys);
  }

  /** In every reachable state the bytes add up, and giving everything back leaves one free block. */
  lemma RunConserves(sys: System, calls: seq<Call>)
    requires Sane(sys) && LegalRun(START, sys, calls)
    ensures var c := Run(START, sys, calls);
      c.heap.brk != 0 ==>
        && TotalSize(c.heap.blocks) == c.heap.brk - FIRST_BP
        && Coalesced(c.heap.blocks)
        && (c.owned == map[] && c.heap.brk > FIRST_BP ==>
              c.heap.blocks == [Block(FIRST_BP, c.heap.brk - FIRST_BP, false)])
  {
    hide Run, LegalRun, Tiles, Coalesced, TotalSize;
    RunKeeps(START, sys, calls) by { StartInv(sys); }
    var c := Run(START, sys, calls);
    if c.heap.brk != 0 {
      TotalOfTiling(c.heap.blocks, FIRST_BP, c.heap.brk);
      if c.owned == map[] && c.heap.brk > FIRST_BP {
        assert Live(c.heap.blocks) == {};
        AllFreeIsOneBlock(c.heap);
      }
    }
  }

  /** Two histories that leave the same live blocks and the same break leave the same heap. */
  lemma HistoryForgotten(sys: System, calls1: seq<Call>, calls2: seq<Call>)
    requires Sane(sys) && LegalRun(START, sys, calls1) && LegalRun(START, sys, calls2)
    requires Live(Run(START, sys, calls1).heap.blocks) == Live(Run(START, sys, calls2).heap.blocks)
    requires Run(START, sys, calls1).heap.brk == Run(START, sys, calls2).heap.brk
    ensures Run(START, sys, calls1).heap == Run(START, sys, calls2).heap
  {
    RunKeeps(START, sys, calls1);
    RunKeeps(START, sys, calls2);
    var h1, h2 := Run(START, sys, calls1).heap, Run(START, sys, calls2).heap;
    if h1.brk != 0 { Canonical(h1.blocks, h2.blocks, FIRST_BP, h1.brk); }
  }
}
