/**
 What `mm_malloc` answers and leaves once its search has found a free block, or none.  The two
 allocators differ only in the search, so this part of them is stated once.
 */
module Serving {
  import opened BlockList
  import opened Machine
  import opened Requests

  /** What a search promises: block `i` is free and large enough, or (`i` past the blocks) none is larger. */
  ghost predicate Searched(h: Heap, i: nat, asize: int) {
    && i <= |h.blocks|
    && (i < |h.blocks| ==> !h.blocks[i].alloc && asize <= h.blocks[i].size)
    && (i == |h.blocks| ==> forall k :: 0 <= k < |h.blocks| ==> h.blocks[k].alloc || h.blocks[k].size <= asize)
  }

  /** The pointer that comes back, whatever the size.  (If the request goes astray: unless the write out there faults.) */
  function Pointer(h: Heap, sys: System, size: nat, i: nat): int {
    var incr := Increment(sys.width, size);
    if size == 0 then 0
    else if i < |h.blocks| then h.blocks[i].bp
    else if SbrkAccepts(sys, h.brk, incr) then Opened(h, incr).bp
    else 0
  }

  /** Where the break is put, whatever the size; past the region if the request goes astray. */
  function Break(h: Heap, sys: System, size: nat, i: nat): int {
    var incr := Increment(sys.width, size);
    if size > 0 && i >= |h.blocks| && SbrkAccepts(sys, h.brk, incr) then h.brk + incr else h.brk
  }

  /** The heap after a request treated as asked. */
  function Served(h: Heap, sys: System, size: nat, i: nat): Heap {
    var asize := Adjust(sys.width, size);
    if size == 0 then h
    else if i < |h.blocks| then Heap(Split(h.blocks, i, asize), h.brk)
    else if SbrkAccepts(sys, h.brk, Increment(sys.width, size)) then
      var g := Grow(h, GrowBy(asize));
      var last := |KeptLeft(h.blocks)|;
      Heap(if last < |g.blocks| then Split(g.blocks, last, asize) else g.blocks, g.brk)
    else h
  }

  /** NULL, or `size` bytes below the end of the region; and the break stays in it too. */
  predicate Kept(sys: System, size: nat, ptr: int, brk: int) {
    (ptr == 0 || ptr + size <= sys.limit) && brk <= sys.limit
  }

  // ---------------------------------------------------------------- blocks and pointers

  /** The pointer of block `b` of a well-formed heap finds `b`. */
  lemma PointerFinds(h: Heap, b: Block)
    requires WellFormed(h) && b in h.blocks
    ensures IndexOf(h.blocks, b.bp) < |h.blocks| && h.blocks[IndexOf(h.blocks, b.bp)] == b
  {
    var i :| 0 <= i < |h.blocks| && h.blocks[i] == b;
    IndexOfBlock(h.blocks, FIRST_BP, h.brk, i);
  }

  lemma SamePointer(h: Heap, x: Block, y: Block)
    requires WellFormed(h) && x in h.blocks && y in h.blocks && x.bp == y.bp
    ensures x == y
  {
    PointerFinds(h, x);
    PointerFinds(h, y);
  }

  /** The block of a heap that has this pointer. */
  function BlockAt(h: Heap, ptr: int): Block {
    var i := IndexOf(h.blocks, ptr);
    if i < |h.blocks| then h.blocks[i] else Block(0, 0, false)
  }

  /** What a successful allocation of `size` bytes changes: one new live block, large enough and little larger. */
  ghost predicate Allocates(h: Heap, h': Heap, ptr: int, size: nat) {
    var b := BlockAt(h', ptr);
    && WellFormed(h')
    && b.bp == ptr
    && b !in Live(h.blocks)
    && Live(h'.blocks) == Live(h.blocks) + {b}
    && size <= b.size - 8
    && b.size <= (if size > 8 then size + 23 else 24)
  }

  /** Splitting free block `i` of `h`, for a caller that held the live blocks of `h0`. */
  lemma SplitAllocates(h0: Heap, h: Heap, i: nat, w: Width, size: nat)
    requires WellFormed(h) && i < |h.blocks| && !h.blocks[i].alloc && Live(h.blocks) == Live(h0.blocks)
    requires !Wraps(w, size) && Adjust(w, size) <= h.blocks[i].size
    ensures Allocates(h0, Heap(Split(h.blocks, i, Adjust(w, size)), h.brk), h.blocks[i].bp, size)
    ensures h.blocks[i].bp + size <= h.brk && FIRST_BP <= h.blocks[i].bp
  {
    var asize := Adjust(w, size);
    AdjustRoom(w, size);
    SplitKeeps(h, i, asize);
    TilesBounds(h.blocks, FIRST_BP, h.brk);
    var h' := Heap(Split(h.blocks, i, asize), h.brk);
    PointerFinds(h', h'.blocks[i]);
  }

  // ---------------------------------------------------------------- every request

  /** A request treated as asked: one new live block of the size asked for, or NULL and no change. */
  lemma HonestServed(h0: Heap, h: Heap, sys: System, size: nat, i: nat)
    requires Sane(sys) && WellFormed(h) && h.brk <= sys.limit && Live(h.blocks) == Live(h0.blocks)
    requires 0 < size < sys.width.Modulus() && Searched(h, i, Adjust(sys.width, size)) && Honest(h, sys, size, i)
    ensures var h', ptr := Served(h, sys, size, i), Pointer(h, sys, size, i);
      && WellFormed(h') && FIRST_BP <= h'.brk == Break(h, sys, size, i) <= sys.limit
      && (ptr == 0 ==> h' == h)
      && (ptr != 0 ==> Allocates(h0, h', ptr, size) && ptr + size <= sys.limit && ptr >= FIRST_BP)
  {
    hide Adjust, Tiles, Coalesced, Split, KeptLeft, ToInt32, Address, Strays;
    var w, asize, incr := sys.width, Adjust(sys.width, size), Increment(sys.width, size);
    TilesBounds(h.blocks, FIRST_BP, h.brk);
    if i < |h.blocks| {
      SplitAllocates(h0, h, i, w, size);
    } else if SbrkAccepts(sys, h.brk, incr) {
      AdjustRoom(w, size);
      HonestGrowth(h, sys, size);
      GrowKeeps(h, GrowBy(asize));
      GrowLast(h, GrowBy(asize));
      SplitAllocates(h0, Grow(h, GrowBy(asize)), |KeptLeft(h.blocks)|, w, size);
    }
  }

  /** Any other gets a pointer, and either the bytes asked for or the break itself run past the end of the region. */
  lemma DishonestOverruns(h: Heap, sys: System, size: nat, i: nat)
    requires Sane(sys) && WellFormed(h) && h.brk <= sys.limit
    requires 0 < size < sys.width.Modulus() && Searched(h, i, Adjust(sys.width, size)) && !Honest(h, sys, size, i)
    ensures Pointer(h, sys, size, i) >= FIRST_BP
    ensures if GoesAstray(h, sys, size, i) then Break(h, sys, size, i) > sys.limit
            else Pointer(h, sys, size, i) + size > sys.limit && Break(h, sys, size, i) <= sys.limit
  {
    hide Adjust, Tiles, Coalesced, ToInt32, Opened;
    var w, incr := sys.width, Increment(sys.width, size);
    TilesBounds(h.blocks, FIRST_BP, h.brk);
    IncrementAligned(w, size);
    AcceptsExactly(sys, h.brk, incr);
    if incr >= 0 { OpenedAt(h, incr); }
    if Wraps(w, size) { AdjustWrapped(w, size); } else { AdjustRoom(w, size); }
  }

  /** So the promise is kept exactly for size 0 and the honest requests. */
  lemma KeptExactly(h: Heap, sys: System, size: nat, i: nat)
    requires Sane(sys) && WellFormed(h) && h.brk <= sys.limit
    requires size < sys.width.Modulus() && Searched(h, i, Adjust(sys.width, size))
    ensures Kept(sys, size, Pointer(h, sys, size, i), Break(h, sys, size, i)) <==> size == 0 || Honest(h, sys, size, i)
  {
    hide Honest, Allocates, Searched, GoesAstray;
    if size == 0 {
    } else if Honest(h, sys, size, i) {
      HonestServed(h, h, sys, size, i);
    } else {
      DishonestOverruns(h, sys, size, i);
    }
  }

  /** NULL comes back exactly for size 0, or when the search fails and `mem_sbrk` refuses the amount it is given. */
  lemma NullExactly(h: Heap, sys: System, size: nat, i: nat)
    requires WellFormed(h) && i <= |h.blocks|
    ensures Pointer(h, sys, size, i) == 0 <==>
      size == 0 || (i == |h.blocks| && !SbrkAccepts(sys, h.brk, Increment(sys.width, size)))
  {
    hide Adjust, Tiles, Coalesced, ToInt32, Opened;
    TilesBounds(h.blocks, FIRST_BP, h.brk);
    IncrementAligned(sys.width, size);
    if Increment(sys.width, size) >= 0 { OpenedAt(h, Increment(sys.width, size)); }
  }

  /**
   Where an honest request is served: in the block found, and the break stays; or in the last block if
   that was free and else at the old break, which moves by the size asked for with header and footer,
   rounded up to 8, or by one chunk if that is more.
   */
  lemma ServedWhere(h: Heap, sys: System, size: nat, i: nat)
    requires Sane(sys) && WellFormed(h) && h.brk <= sys.limit
    requires 0 < size < sys.width.Modulus() && Searched(h, i, Adjust(sys.width, size)) && Honest(h, sys, size, i)
    requires Pointer(h, sys, size, i) != 0
    ensures i < |h.blocks| ==> Pointer(h, sys, size, i) == h.blocks[i].bp && Served(h, sys, size, i).brk == h.brk
    ensures i == |h.blocks| ==>
      var g := Served(h, sys, size, i).brk - h.brk;
      && g % 8 == 0 && g >= CHUNKSIZE && g >= size + 8 && (g == CHUNKSIZE || g < size + 16)
      && Pointer(h, sys, size, i) == (if LastFree(h.blocks) then h.blocks[|h.blocks| - 1].bp else h.brk)
  {
    hide Tiles, Coalesced, Split, KeptLeft;
    TilesBounds(h.blocks, FIRST_BP, h.brk);
    ServedBreak(h, sys, size, i);
    if i == |h.blocks| {
      HonestGrowth(h, sys, size);
      AdjustRoom(sys.width, size);
      OpenedAt(h, Increment(sys.width, size));
    }
  }

  /** The served heap ends where the break is put. */
  lemma ServedBreak(h: Heap, sys: System, size: nat, i: nat)
    requires Sane(sys) && 0 <= h.brk <= sys.limit && Honest(h, sys, size, i)
    ensures Served(h, sys, size, i).brk == Break(h, sys, size, i)
  {
    if size > 0 && i >= |h.blocks| && SbrkAccepts(sys, h.brk, Increment(sys.width, size)) {
      SmallAmount(GrowBy(Adjust(sys.width, size)));
    }
  }

  /** A search that fails and a break that does not move treat the request as asked. */
  lemma Refused(h: Heap, sys: System, size: nat, i: nat)
    requires i == |h.blocks| && !SbrkAccepts(sys, h.brk, Increment(sys.width, size))
    ensures Honest(h, sys, size, i) && Served(h, sys, size, i) == h
  {}
}
