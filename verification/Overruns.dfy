/**
 Requests of every size in a boundary-tag heap: what reaches `place` and `extend_heap`, and what a
 request that is not treated as asked leaves behind, down to the exact cases in which the tags still
 describe a list of blocks.
 */
module Overruns {
  import opened BlockList
  import opened Machine
  import opened Requests
  import opened Serving
  import opened TagMemory

  // ---------------------------------------------------------------- sizes and tags in mm_malloc

  /** What the adjusted size is like, by whether the request is honest and whether block `i` was found for it. */
  lemma Amounts(h: Heap, sys: System, size: nat, i: nat)
    requires Sane(sys) && WellFormed(h) && h.brk <= sys.limit && 0 < size < sys.width.Modulus()
    requires Searched(h, i, Adjust(sys.width, size)) && !GoesAstray(h, sys, size, i)
    ensures var asize, w := Adjust(sys.width, size), sys.width;
      && asize < w.Modulus() && asize % 8 == 0 && Increment(w, size) % 8 == 0
      && (!Wraps(w, size) ==> MIN_BLOCK <= asize)
      && (Wraps(w, size) ==> asize == 0 || asize == 8)
      && (GrowBy(asize) <= INT_MAX ==> Increment(w, size) == GrowBy(asize) >= CHUNKSIZE)
      && (GrowBy(asize) > INT_MAX ==> asize == GrowBy(asize) && !Wraps(w, size))
      && (i < |h.blocks| ==> asize <= INT_MAX && (Honest(h, sys, size, i) <==> !Wraps(w, size)))
      && (i == |h.blocks| && SbrkAccepts(sys, h.brk, Increment(w, size)) ==>
            && 0 <= Increment(w, size) && h.brk + Increment(w, size) <= sys.limit
            && (Honest(h, sys, size, i) <==> !Wraps(w, size) && GrowBy(asize) <= INT_MAX)
            && (GrowBy(asize) > INT_MAX ==> Increment(w, size) == Stored(asize) && w.Modulus() - asize >= MIN_BLOCK))
  {
    hide Adjust, ToInt32, Tiles, Coalesced, Address;
    var w, asize, incr := sys.width, Adjust(sys.width, size), Increment(sys.width, size);
    TilesBounds(h.blocks, FIRST_BP, h.brk);
    IncrementAligned(w, size);
    AcceptsExactly(sys, h.brk, incr);
    if Wraps(w, size) { AdjustWrapped(w, size); } else { AdjustRoom(w, size); }
    if GrowBy(asize) <= INT_MAX {
      SmallAmount(GrowBy(asize));
    } else if i == |h.blocks| && SbrkAccepts(sys, h.brk, incr) {
      MisledGrowth(h, sys, size);
    }
  }

  /** Placing no more than the block has. */
  lemma Fits(w: Width, c: nat, asize: nat)
    requires asize <= c <= INT_MAX
    ensures Stored(asize) == asize < w.Modulus() && (Cuts(w, c, asize) <==> c - asize >= MIN_BLOCK)
  {
    StoredWhole(asize);
    StoredRest(w, c, asize);
  }

  /** Placing more than the block has: the subtraction wraps and the block is cut at the stored size. */
  lemma Overfits(w: Width, c: nat, asize: nat)
    requires Stored(asize) <= c <= INT_MAX < asize < w.Modulus() && w.Modulus() - asize >= MIN_BLOCK
    ensures Cuts(w, c, asize)
  {
    StoredRest(w, c, asize);
  }

  /** The header of block `i`. */
  lemma TagOf(m: seq<byte>, bs: seq<Block>, i: nat, brk: int)
    requires Encodes(m, bs, brk) && i < |bs|
    ensures FIRST_BP <= bs[i].bp && MIN_BLOCK <= bs[i].size <= INT_MAX && bs[i].size % 8 == 0 && bs[i].End() <= brk <= |m|
    ensures Word(m, bs[i].bp - 4) == Tag(bs[i].size, bs[i].alloc)
  {
    TilesBounds(bs, FIRST_BP, brk);
    assert Tagged(m, bs[i]);
  }

  /** The header of the block that `extend_heap` has made. */
  lemma OpenedTag(m: seq<byte>, m': seq<byte>, h: Heap, incr: nat)
    requires FIRST_BP <= h.brk && h.brk + incr <= |m| == |m'| && Grown(m, m', h.blocks, h.brk, incr)
    requires Opened(h, incr).bp >= 4 && Opened(h, incr).bp <= |m|
    ensures Word(m', Opened(h, incr).bp - 4) == Tag(Opened(h, incr).size, false)
  {}

  // ---------------------------------------------------------------- what is left of the heap

  /** Some list of blocks is what the tags up to the break describe. */
  ghost predicate Encodable(m: seq<byte>, brk: int) { exists bs :: Encodes(m, bs, brk) }

  /** Where two heaps have the same header they have the same block. */
  lemma SameBlock(m: seq<byte>, m': seq<byte>, bs: seq<Block>, bs': seq<Block>, brk: int, brk': int, j: nat)
    requires Encodes(m, bs, brk) && Encodes(m', bs', brk') && j < |bs| && j <= |bs'| && At(bs', j, brk') == bs[j].bp
    requires 4 <= bs[j].bp <= |m| && bs[j].bp <= |m'| && Word(m, bs[j].bp - 4) == Word(m', bs[j].bp - 4)
    ensures j < |bs'| && bs'[j] == bs[j]
  {
    hide Word, Tiles;
    assert Tagged(m, bs[j]);
    TilesSplit(bs, j, FIRST_BP, brk);
    TagFields(bs[j].size, bs[j].alloc);
    TagFields(0, true);
    if j < |bs'| {
      assert Tagged(m', bs'[j]);
      TilesSplit(bs', j, FIRST_BP, brk');
      TagFields(bs'[j].size, bs'[j].alloc);
    }
  }

  /** A walk over headers sees the same blocks for as long as the headers are the same. */
  lemma {:induction false} SameWalk(m: seq<byte>, m': seq<byte>, bs: seq<Block>, bs': seq<Block>, brk: int, brk': int, k: nat)
    requires Encodes(m, bs, brk) && Encodes(m', bs', brk') && k < |bs| && SameOutside(m, m', bs[k].bp - 8, |m|)
    ensures k <= |bs'| && bs'[..k] == bs[..k] && At(bs', k, brk') == bs[k].bp
  {
    hide Word, Encodes, SameOutside, Tiles;
    EncodedBounds(m, bs, brk);
    EncodedBounds(m', bs', brk');
    if k == 0 {
      TilesStart(bs', FIRST_BP, brk');
      TilesStart(bs, FIRST_BP, brk);
    } else {
      var b := bs[k - 1];
      TilesSplit(bs, k - 1, FIRST_BP, brk);
      TilesFrom(bs[..k - 1], FIRST_BP, b.bp);
      TilesSplit(bs, k, FIRST_BP, brk);
      TilesFrom(bs[k..], bs[k].bp, brk);
      SameMore(m, m', bs[k].bp - 8, |m|, b.bp - 8, |m|);
      SameWalk(m, m', bs, bs', brk, brk', k - 1);
      WordBelow(m, m', bs[k].bp - 8, b.bp - 4);
      SameBlock(m, m', bs, bs', brk, brk', k - 1);
      TilesSplit(bs', k - 1, FIRST_BP, brk');
      assert bs[..k] == bs[..k - 1] + [b] && bs'[..k] == bs'[..k - 1] + [b];
    }
  }

  lemma TilesFrom(bs: seq<Block>, from: int, to: int)
    requires Tiles(bs, from, to)
    ensures from <= to
  {
    TilesBounds(bs, from, to);
  }

  lemma TilesStart(bs: seq<Block>, from: int, to: int)
    requires Tiles(bs, from, to)
    ensures At(bs, 0, to) == from
  {}

  lemma WordBelow(m: seq<byte>, m': seq<byte>, lo: int, a: int)
    requires SameOutside(m, m', lo, |m|) && 0 <= a && a + 4 <= lo && a + 4 <= |m|
    ensures |m'| == |m| && Word(m, a) == Word(m', a)
  {}

  /** In a heap that agrees with another up to a block, the header there says more than 8 bytes. */
  lemma HeaderThere(m: seq<byte>, m': seq<byte>, bs: seq<Block>, bs': seq<Block>, k: nat, brk: int, brk': int)
    requires Encodes(m, bs, brk) && Encodes(m', bs', brk') && k < |bs| && SameOutside(m, m', bs[k].bp - 8, |m|)
    requires 4 <= bs[k].bp <= |m'|
    ensures Word(m', bs[k].bp - 4) != Tag(8, true)
  {
    hide Word, Tiles, SameOutside;
    SameWalk(m, m', bs, bs', brk, brk', k);
    TilesSplit(bs', k, FIRST_BP, brk');
    TagFields(8, true);
    TagFields(0, true);
    if k < |bs'| {
      assert Tagged(m', bs'[k]);
      TagFields(bs'[k].size, bs'[k].alloc);
    }
  }

  /** And the footer before it, of a block or of the prologue, does not say 0. */
  lemma FooterThere(m: seq<byte>, m': seq<byte>, bs: seq<Block>, bs': seq<Block>, k: nat, brk: int, brk': int)
    requires Encodes(m, bs, brk) && Encodes(m', bs', brk') && k < |bs| && SameOutside(m, m', bs[k].bp - 8, |m|)
    requires 8 <= bs[k].bp <= |m'|
    ensures Word(m', bs[k].bp - 8) != Tag(0, true)
  {
    hide Word, Tiles, SameOutside;
    SameWalk(m, m', bs, bs', brk, brk', k);
    TagFields(0, true);
    if k == 0 {
      TilesStart(bs, FIRST_BP, brk);
    } else {
      TilesSplit(bs, k - 1, FIRST_BP, brk);
      assert bs'[k - 1] == bs'[..k][k - 1] == bs[k - 1];
      assert Tagged(m', bs'[k - 1]);
      TagFields(bs[k - 1].size, bs[k - 1].alloc);
    }
  }

  /** An 8-byte block is in no list. */
  lemma TooSmall(m: seq<byte>, m': seq<byte>, bs: seq<Block>, k: nat, brk: int, brk': int)
    requires Encodes(m, bs, brk) && k < |bs| && SameOutside(m, m', bs[k].bp - 8, |m|)
    requires 4 <= bs[k].bp <= |m| == |m'| && Word(m', bs[k].bp - 4) == Tag(8, true)
    ensures !Encodable(m', brk')
  {
    hide Word, Encodes, SameOutside;
    if bs': seq<Block> :| Encodes(m', bs', brk') { HeaderThere(m, m', bs, bs', k, brk, brk'); }
  }

  /** Nor is a block, or a prologue, whose footer says 0. */
  lemma LostFooter(m: seq<byte>, m': seq<byte>, bs: seq<Block>, k: nat, brk: int, brk': int)
    requires Encodes(m, bs, brk) && k < |bs| && SameOutside(m, m', bs[k].bp - 8, |m|)
    requires 8 <= bs[k].bp <= |m| == |m'| && Word(m', bs[k].bp - 8) == Tag(0, true)
    ensures !Encodable(m', brk')
  {
    hide Word, Encodes, SameOutside;
    if bs': seq<Block> :| Encodes(m', bs', brk') { FooterThere(m, m', bs, bs', k, brk, brk'); }
  }

  /**
   A request whose rounding wrapped places 0 or 8 bytes in free block `i`: the heap survives exactly
   if that block is too small to be cut.
   */
  lemma ShreddedExactly(m: seq<byte>, m': seq<byte>, bs: seq<Block>, i: nat, brk: int, w: Width, asize: nat)
    requires Encodes(m, bs, brk) && i < |bs| && !bs[i].alloc && |m| == |m'| && (asize == 0 || asize == 8)
    requires FIRST_BP <= bs[i].bp && MIN_BLOCK <= bs[i].size && bs[i].End() <= |m|
    requires Placed(m', bs[i].bp, w, bs[i].size, asize)
    requires SameOutside(m, m', bs[i].bp - (if asize == 0 then 8 else 4), bs[i].End() - 4)
    ensures Encodable(m', brk) <==> asize == 8 && bs[i].size == MIN_BLOCK
  {
    hide Word, Tiles, SameOutside, Stored, Minus;
    var b := bs[i];
    StoredWhole(asize);
    StoredRest(w, b.size, asize);
    TilesBounds(bs, FIRST_BP, brk);
    SameMore(m, m', b.bp - (if asize == 0 then 8 else 4), b.End() - 4, b.bp - 8, |m|);
    if asize == 0 {
      LostFooter(m, m', bs, i, brk, brk);
    } else if b.size > MIN_BLOCK {
      TooSmall(m, m', bs, i, brk, brk);
    } else {
      var left, right, b' := bs[..i], bs[i + 1..], b.(alloc := true);
      Cut(bs, i, FIRST_BP, brk);
      EncodedParts(m, left, b, right, brk);
      OneBlockTiles(b');
      Rebuild(m, m', left, [b'], right, b.bp, b.End(), brk);
    }
  }

  /**
   A request so large that only its stored part `r` reached `mem_sbrk` and the tags: the heap survives
   exactly if the last block was free and took up at least 16 more bytes.
   */
  lemma OvergrownExactly(m: seq<byte>, m1: seq<byte>, m': seq<byte>, bs: seq<Block>, brk: int, w: Width, asize: nat)
    requires Encodes(m, bs, brk) && Coalesced(bs) && |m| == |m1| == |m'|
    requires INT_MAX < asize < w.Modulus() && asize % 8 == 0 && brk + Stored(asize) <= |m|
    requires var u := Opened(Heap(bs, brk), Stored(asize));
      && FIRST_BP <= u.bp && 0 <= u.size && u.End() <= |m|
      && Grown(m, m1, bs, brk, Stored(asize)) && Placed(m', u.bp, w, u.size, asize) && Cuts(w, u.size, asize)
      && SameOutside(m1, m', u.bp - (if Stored(asize) == 0 then 8 else 4), u.End() - (if Stored(asize) == u.size then 0 else 4))
    ensures Encodable(m', brk + Stored(asize)) <==> LastFree(bs) && Stored(asize) >= MIN_BLOCK
  {
    hide Word, Tiles, SameOutside, Stored, Minus, Coalesced, Union;
    var r := Stored(asize);
    var h := Heap(bs, brk);
    var u := Opened(h, r);
    StoredAligned(asize);
    OpenedAt(h, r);
    if u.size == r {
      assert Word(m', u.End() - 4) == Tag(0, false);
      assert !Encodable(m', brk + r);
    } else if r == 8 {
      BelowLast(m, m1, m', bs, brk, u);
      TooSmall(m, m', bs, |bs| - 1, brk, brk + r);
    } else {
      SurvivesGrown(m, m1, m', bs, brk, w, asize);
    }
  }

  /** Growing over a free last block changes nothing below it. */
  lemma BelowLast(m: seq<byte>, m1: seq<byte>, m': seq<byte>, bs: seq<Block>, brk: int, u: Block)
    requires Encodes(m, bs, brk) && LastFree(bs) && u.bp == bs[|bs| - 1].bp && u.End() <= |m|
    requires SameOutside(m, m1, u.bp - 4, u.End()) && SameOutside(m1, m', u.bp - 4, u.End() - 4)
    ensures SameOutside(m, m', bs[|bs| - 1].bp - 8, |m|)
  {}

  lemma SurvivesGrown(m: seq<byte>, m1: seq<byte>, m': seq<byte>, bs: seq<Block>, brk: int, w: Width, asize: nat)
    requires Encodes(m, bs, brk) && Coalesced(bs) && |m| == |m1| == |m'| && LastFree(bs)
    requires asize < w.Modulus() && asize % 8 == 0 && MIN_BLOCK <= Stored(asize) && brk + Stored(asize) <= |m|
    requires var u := Opened(Heap(bs, brk), Stored(asize));
      && FIRST_BP <= u.bp && 0 <= u.size && u.End() <= |m|
      && Grown(m, m1, bs, brk, Stored(asize)) && Placed(m', u.bp, w, u.size, asize) && Cuts(w, u.size, asize)
      && SameOutside(m1, m', u.bp - 4, u.End() - 4)
    ensures Encodable(m', brk + Stored(asize))
  {
    hide Word, Tiles, SameOutside, Stored, Minus, Coalesced, Union, Pieces, KeptLeft;
    var r := Stored(asize);
    var h, b := Heap(bs, brk), Block(brk, r, false);
    var u, last := Opened(h, r), |KeptLeft(bs)|;
    StoredAligned(asize);
    OpenedAt(h, r);
    Extended(m, m1, bs, b);
    GrowLast(h, r);
    StoredWhole(r);
    StoredRest(w, u.size, r);
    assert Placed(m', u.bp, w, u.size, r);
    Occupied(m1, m', Grow(h, r).blocks, last, brk + r, w, r);
  }

  // ---------------------------------------------------------------- the end of mm_malloc, at every size

  /** What a misled request leaves behind on heap `h`: where the break is, and whether the tags still make sense. */
  ghost predicate Misused(m: seq<byte>, brk: int, h: Heap, sys: System, size: nat, i: nat) {
    && brk == Break(h, sys, size, i)
    && (Encodable(m, brk) <==> Survives(h, sys.width, size, i))
  }

  /** What a request leaves in memory, up to the break: a heap if it is treated as asked, and always every live payload. */
  ghost predicate Finished(m: seq<byte>, m': seq<byte>, brk: int, h: Heap, sys: System, size: nat, i: nat) {
    && PayloadsKept(m, m', Live(h.blocks))
    && if Honest(h, sys, size, i) then
         var h' := Served(h, sys, size, i);
         Encodes(m', h'.blocks, h'.brk) && Coalesced(h'.blocks) && brk == h'.brk
       else Misused(m', brk, h, sys, size, i)
  }

  /** Writing in and around a free block, up to the footer before it, changes no payload. */
  lemma PayloadsAround(m: seq<byte>, m': seq<byte>, bs: seq<Block>, i: nat, brk: int)
    requires Tiles(bs, FIRST_BP, brk) && i < |bs| && !bs[i].alloc && SameOutside(m, m', bs[i].bp - 8, bs[i].End())
    ensures PayloadsKept(m, m', Live(bs))
  {
    TilesBounds(bs, FIRST_BP, brk);
    forall b | b in Live(bs) ensures PayloadSame(m, m', b) {
      var j :| 0 <= j < |bs| && bs[j] == b;
      assert j < i || i < j;
    }
  }

  /** Nor does writing from the footer before a free last block, or before the break, on. */
  lemma PayloadsBelow(m: seq<byte>, m': seq<byte>, h: Heap, incr: nat)
    requires WellFormed(h) && SameOutside(m, m', Opened(h, incr).bp - 8, |m|)
    ensures PayloadsKept(m, m', Live(h.blocks))
  {
    TilesBounds(h.blocks, FIRST_BP, h.brk);
    forall b | b in Live(h.blocks) ensures PayloadSame(m, m', b) {
      var j :| 0 <= j < |h.blocks| && h.blocks[j] == b;
      assert LastFree(h.blocks) ==> j < |h.blocks| - 1;
    }
  }

  /** `place` in the free block `i` that the search has found. */
  method PlaceFound(mem: array<byte>, bp: int, asize: nat, w: Width,
                    ghost h: Heap, ghost sys: System, ghost size: nat, ghost i: nat)
    requires Sane(sys) && sys.width == w && sys.limit == mem.Length && 0 < size < w.Modulus() && asize == Adjust(w, size)
    requires Encodes(mem[..], h.blocks, h.brk) && Coalesced(h.blocks)
    requires Searched(h, i, asize) && i < |h.blocks| && bp == h.blocks[i].bp
    modifies mem
    ensures Finished(old(mem[..]), mem[..], h.brk, h, sys, size, i)
  {
    hide Coalesced, PayloadsKept, Split, Tiles, AllTagged, Word, Placed, Encodable, Adjust, ToInt32, Stored, Minus, SameOutside;
    ghost var m, b := mem[..], h.blocks[i];
    EncodedBounds(m, h.blocks, h.brk);
    Amounts(h, sys, size, i);
    TagOf(m, h.blocks, i, h.brk);
    Fits(w, b.size, asize);
    Place(mem, bp, asize, w, b.size);
    SameMore(m, mem[..], b.bp - (if asize == 0 then 8 else 4), b.End() - 4, b.bp - 8, b.End());
    PayloadsAround(m, mem[..], h.blocks, i, h.brk);
    if Wraps(w, size) {
      ShreddedExactly(m, mem[..], h.blocks, i, h.brk, w, asize);
    } else {
      Occupied(m, mem[..], h.blocks, i, h.brk, w, asize);
    }
  }

  /** `extend_heap` for `size` bytes: refused, or the tags for what reached `mem_sbrk`, a grown heap if that is all of it. */
  method GrowHeap(mem: array<byte>, sys: System, brk: int, size: nat, ghost bs: seq<Block>) returns (bp: int, newBrk: int)
    requires Sane(sys) && sys.limit == mem.Length && Encodes(mem[..], bs, brk) && Coalesced(bs)
    requires MIN_BLOCK <= size < sys.width.Modulus() && size % 8 == 0 && !Strays(sys, brk, ToInt32(size))
    modifies mem
    ensures var h, incr := Heap(bs, brk), ToInt32(size);
      if SbrkAccepts(sys, brk, incr) then
        && newBrk == brk + incr <= mem.Length && 0 <= incr && FIRST_BP <= brk && bp == Opened(h, incr).bp >= FIRST_BP
        && Grown(old(mem[..]), mem[..], bs, brk, incr)
        && (size <= INT_MAX ==>
              && Encodes(mem[..], Grow(h, size).blocks, Grow(h, size).brk) && Coalesced(Grow(h, size).blocks)
              && newBrk == Grow(h, size).brk && PayloadsKept(old(mem[..]), mem[..], Live(bs)))
      else bp == 0 && newBrk == brk && mem[..] == old(mem[..])
  {
    hide Encodes, Coalesced, PayloadsKept, Merge, Union, Grown, Address;
    EncodedBounds(mem[..], bs, brk);
    AcceptsExactly(sys, brk, ToInt32(size));
    ToInt32Aligned(size);
    if ToInt32(size) >= 0 { OpenedAt(Heap(bs, brk), ToInt32(size)); }
    ghost var m := mem[..];
    bp, newBrk := Sbrk(sys, brk, ToInt32(size));
    if bp == -1 { return 0, newBrk; }
    ghost var b := Block(bp, size, false);
    bp := Extend(mem, bp, size, bs);
    if size <= INT_MAX { Extended(m, mem[..], bs, b); }
  }

  /** What `extend_heap` has left for `place`: a grown heap, or the tags for an amount past `int`. */
  ghost predicate Grew(m: seq<byte>, m1: seq<byte>, h: Heap, sys: System, size: nat) {
    var g, incr := GrowBy(Adjust(sys.width, size)), Increment(sys.width, size);
    && FIRST_BP <= h.brk && 0 <= incr && h.brk + incr <= sys.limit == |m| == |m1|
    && Grown(m, m1, h.blocks, h.brk, incr)
    && (g <= INT_MAX ==> Encodes(m1, Grow(h, g).blocks, h.brk + g) && Coalesced(Grow(h, g).blocks))
  }

  /** The last step of `mm_malloc`: `place` in the block that `extend_heap` has made room for. */
  method PlaceLast(mem: array<byte>, bp: int, asize: nat, w: Width,
                   ghost m: seq<byte>, ghost h: Heap, ghost sys: System, ghost size: nat)
    requires Sane(sys) && sys.width == w && sys.limit == mem.Length && 0 < size < w.Modulus() && asize == Adjust(w, size)
    requires Encodes(m, h.blocks, h.brk) && Coalesced(h.blocks)
    requires Searched(h, |h.blocks|, asize) && !GoesAstray(h, sys, size, |h.blocks|)
    requires SbrkAccepts(sys, h.brk, Increment(w, size)) && bp == Opened(h, Increment(w, size)).bp
    requires Grew(m, mem[..], h, sys, size)
    modifies mem
    ensures Finished(m, mem[..], h.brk + Increment(w, size), h, sys, size, |h.blocks|)
  {
    hide Coalesced, PayloadsKept, Split, Merge, Union, Tiles, AllTagged, Word, KeptLeft, Placed, Grown, Encodable;
    hide Adjust, ToInt32, Stored, Minus, SameOutside, Address, Encodes;
    ghost var m1, incr := mem[..], Increment(w, size);
    ghost var u := Opened(h, incr);
    EncodedBounds(m, h.blocks, h.brk);
    Amounts(h, sys, size, |h.blocks|);
    OpenedAt(h, incr);
    OpenedTag(m, m1, h, incr);
    if GrowBy(asize) <= INT_MAX { Fits(w, u.size, asize); } else { Overfits(w, u.size, asize); }
    Place(mem, bp, asize, w, u.size);
    GrownBelow(m, m1, mem[..], h, incr, w, asize);
    PayloadsBelow(m, mem[..], h, incr);
    if GrowBy(asize) > INT_MAX {
      OvergrownExactly(m, m1, mem[..], h.blocks, h.brk, w, asize);
    } else {
      PlacedInLast(m1, mem[..], h, sys, size);
    }
  }

  /** Growing and placing change nothing below the footer before the new block. */
  lemma GrownBelow(m: seq<byte>, m1: seq<byte>, m': seq<byte>, h: Heap, incr: nat, w: Width, asize: nat)
    requires FIRST_BP <= h.brk && h.brk + incr <= |m| == |m1| && Grown(m, m1, h.blocks, h.brk, incr)
    requires var u, a := Opened(h, incr), Stored(asize);
      && u.End() <= |m| && 0 <= u.size
      && SameOutside(m1, m', u.bp - (if Cuts(w, u.size, asize) && a == 0 then 8 else 4),
                     u.End() - (if Cuts(w, u.size, asize) && a == u.size then 0 else 4))
    ensures SameOutside(m, m', Opened(h, incr).bp - 8, |m|)
  {}

  /** `place` in the last block of a heap that has grown by the right amount. */
  lemma PlacedInLast(m1: seq<byte>, m': seq<byte>, h: Heap, sys: System, size: nat)
    requires Sane(sys) && WellFormed(h) && h.brk <= sys.limit && 0 < size < sys.width.Modulus() && |m1| == |m'|
    requires Searched(h, |h.blocks|, Adjust(sys.width, size)) && !GoesAstray(h, sys, size, |h.blocks|)
    requires SbrkAccepts(sys, h.brk, Increment(sys.width, size)) && GrowBy(Adjust(sys.width, size)) <= INT_MAX
    requires var g := Grow(h, GrowBy(Adjust(sys.width, size))); Encodes(m1, g.blocks, g.brk) && Coalesced(g.blocks)
    requires var w, asize := sys.width, Adjust(sys.width, size);
      var u := Opened(h, Increment(w, size));
      && FIRST_BP <= u.bp && 0 <= u.size && u.End() <= |m1| && asize <= u.size && Placed(m', u.bp, w, u.size, asize)
      && SameOutside(m1, m', u.bp - (if Cuts(w, u.size, asize) && Stored(asize) == 0 then 8 else 4),
                     u.End() - (if Cuts(w, u.size, asize) && Stored(asize) == u.size then 0 else 4))
    ensures var brk := h.brk + Increment(sys.width, size);
      if Honest(h, sys, size, |h.blocks|) then
        var h' := Served(h, sys, size, |h.blocks|);
        Encodes(m', h'.blocks, h'.brk) && Coalesced(h'.blocks) && brk == h'.brk
      else Misused(m', brk, h, sys, size, |h.blocks|)
  {
    hide Coalesced, PayloadsKept, Split, Merge, Union, Tiles, AllTagged, Word, KeptLeft, Placed, Encodable;
    hide Adjust, ToInt32, Stored, Minus, SameOutside, Address, Encodes;
    var w, asize, last := sys.width, Adjust(sys.width, size), |KeptLeft(h.blocks)|;
    var g := Grow(h, GrowBy(asize));
    Amounts(h, sys, size, |h.blocks|);
    GrowLast(h, GrowBy(asize));
    TagOf(m1, g.blocks, last, g.brk);
    Fits(w, g.blocks[last].size, asize);
    if Wraps(w, size) {
      ShreddedExactly(m1, m', g.blocks, last, g.brk, w, asize);
    } else {
      Occupied(m1, m', g.blocks, last, g.brk, w, asize);
    }
  }
}
