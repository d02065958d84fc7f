/**
 The heap of the boundary-tag allocators seen as a list of blocks: what splitting, merging and
 growing do to that list, and what they keep.  Addresses are byte offsets from the start of the
 heap region; `bp` is a block pointer (the first payload byte), the block's header is the word at
 `bp - 4` and its footer the word at `bp + size - 8`.
 */
module BlockList {

  const MIN_BLOCK: int := 16
  const CHUNKSIZE: int := 4096
  const FIRST_BP: int := 16

  datatype Block = Block(bp: int, size: int, alloc: bool) {
    function End(): int { bp + size }
    function PayloadEnd(): int { bp + size - 8 }
  }

  /** `blocks` between prologue and epilogue; `brk` is the current break (0: not initialised). */
  datatype Heap = Heap(blocks: seq<Block>, brk: int)

  /** The blocks cover `[from, to)` (in block pointers) exactly, each a multiple of 8, at least 16. */
  predicate Tiles(bs: seq<Block>, from: int, to: int) {
    if bs == [] then from == to
    else
      && bs[0].bp == from
      && bs[0].size >= MIN_BLOCK
      && bs[0].size % 8 == 0
      && Tiles(bs[1..], from + bs[0].size, to)
  }

  /** No two neighbouring blocks are both free. */
  ghost predicate Coalesced(bs: seq<Block>) {
    forall i, j :: 0 <= i && j == i + 1 && j < |bs| ==> bs[i].alloc || bs[j].alloc
  }

  ghost function Live(bs: seq<Block>): set<Block> {
    set b | b in bs && b.alloc
  }

  function TotalSize(bs: seq<Block>): int {
    if bs == [] then 0 else bs[0].size + TotalSize(bs[1..])
  }

  ghost predicate WellFormed(h: Heap) {
    Tiles(h.blocks, FIRST_BP, h.brk) && Coalesced(h.blocks)
  }

  // ---------------------------------------------------------------- operations on the list

  /** What a split replaces a free block by. */
  function Pieces(b: Block, asize: int): seq<Block> {
    if b.size - asize >= MIN_BLOCK then
      [Block(b.bp, asize, true), Block(b.bp + asize, b.size - asize, false)]
    else
      [b.(alloc := true)]
  }

  /** Take `asize` bytes at the front of block `i`; a rest of at least 16 bytes stays free. */
  function Split(bs: seq<Block>, i: nat, asize: int): seq<Block>
    requires i < |bs|
  {
    bs[..i] + Pieces(bs[i], asize) + bs[i + 1..]
  }

  predicate LastFree(left: seq<Block>) { left != [] && !left[|left| - 1].alloc }

  predicate FirstFree(right: seq<Block>) { right != [] && !right[0].alloc }

  function KeptLeft(left: seq<Block>): seq<Block> {
    if LastFree(left) then left[..|left| - 1] else left
  }

  function KeptRight(right: seq<Block>): seq<Block> {
    if FirstFree(right) then right[1..] else right
  }

  /** The one block that replaces `b` and its free neighbours. */
  function Union(left: seq<Block>, b: Block, right: seq<Block>): Block {
    var start := if LastFree(left) then left[|left| - 1].bp else b.bp;
    var end := if FirstFree(right) then right[0].End() else b.End();
    Block(start, end - start, false)
  }

  function Merge(left: seq<Block>, b: Block, right: seq<Block>): seq<Block> {
    KeptLeft(left) + [Union(left, b, right)] + KeptRight(right)
  }

  function FreeAt(bs: seq<Block>, i: nat): seq<Block>
    requires i < |bs|
  {
    Merge(bs[..i], bs[i].(alloc := false), bs[i + 1..])
  }

  /** Extend the heap by `size` bytes at the break. */
  function Grow(h: Heap, size: int): Heap {
    Heap(Merge(h.blocks, Block(h.brk, size, false), []), h.brk + size)
  }

  /** The free block at the end of a heap whose break has moved by `incr`; an empty one if that is 0. */
  function Opened(h: Heap, incr: int): Block {
    if incr == 0 then Block(h.brk, 0, false) else Union(h.blocks, Block(h.brk, incr, false), [])
  }

  /** The address of block `k`, or the end of the tiled range. */
  function At(bs: seq<Block>, k: nat, to: int): int
    requires k <= |bs|
  {
    if k < |bs| then bs[k].bp else to
  }

  function IndexOf(bs: seq<Block>, bp: int): (i: nat)
    ensures i <= |bs|
    ensures i < |bs| ==> bs[i].bp == bp
    ensures forall j :: 0 <= j < i ==> bs[j].bp != bp
  {
    if bs == [] || bs[0].bp == bp then 0 else 1 + IndexOf(bs[1..], bp)
  }

  // ---------------------------------------------------------------- tilings

  lemma {:induction false} TilesBounds(bs: seq<Block>, from: int, to: int)
    requires Tiles(bs, from, to)
    ensures from <= to && (to - from) % 8 == 0
    ensures forall i :: 0 <= i < |bs| ==>
      from <= bs[i].bp && bs[i].End() <= to && (bs[i].bp - from) % 8 == 0 && bs[i].size >= MIN_BLOCK && bs[i].size % 8 == 0
    ensures forall i, j :: 0 <= i < j < |bs| ==> bs[i].End() <= bs[j].bp
  {
    if bs != [] {
      var rest := bs[1..];
      TilesBounds(rest, from + bs[0].size, to);
      forall i | 0 <= i < |bs|
        ensures from <= bs[i].bp && bs[i].End() <= to && (bs[i].bp - from) % 8 == 0 && bs[i].size >= MIN_BLOCK && bs[i].size % 8 == 0
      {
        if i > 0 { assert bs[i] == rest[i - 1]; }
      }
      forall i, j | 0 <= i < j < |bs|
        ensures bs[i].End() <= bs[j].bp
      {
        assert bs[j] == rest[j - 1];
        if i > 0 { assert bs[i] == rest[i - 1]; }
      }
    }
  }

  lemma {:induction false} TilesConcat(x: seq<Block>, y: seq<Block>, from: int, mid: int, to: int)
    requires Tiles(x, from, mid) && Tiles(y, mid, to)
    ensures Tiles(x + y, from, to)
  {
    if x == [] {
      assert x + y == y;
    } else {
      TilesConcat(x[1..], y, from + x[0].size, mid, to);
      assert (x + y)[1..] == x[1..] + y;
    }
  }

  lemma {:induction false} TilesSplit(bs: seq<Block>, k: nat, from: int, to: int)
    requires Tiles(bs, from, to) && k <= |bs|
    ensures Tiles(bs[..k], from, At(bs, k, to)) && Tiles(bs[k..], At(bs, k, to), to)
    ensures k < |bs| ==> At(bs, k + 1, to) == bs[k].End() && bs[k].size >= MIN_BLOCK && bs[k].size % 8 == 0
  {
    if k == 0 {
      assert bs[0..] == bs;
      if bs != [] && bs[1..] != [] { assert bs[1] == bs[1..][0]; }
    } else {
      var rest := bs[1..];
      TilesSplit(rest, k - 1, from + bs[0].size, to);
      assert bs[..k][1..] == rest[..k - 1];
      assert bs[k..] == rest[k - 1..];
    }
  }

  /** Three tilings end to end are one. */
  lemma TilesJoin(left: seq<Block>, mid: seq<Block>, right: seq<Block>, from: int, lo: int, hi: int, to: int)
    requires Tiles(left, from, lo) && Tiles(mid, lo, hi) && Tiles(right, hi, to)
    ensures Tiles(left + mid + right, from, to)
  {
    TilesConcat(left, mid, from, lo, hi);
    TilesConcat(left + mid, right, from, hi, to);
  }

  lemma {:induction false} TotalOfTiling(bs: seq<Block>, from: int, to: int)
    requires Tiles(bs, from, to)
    ensures TotalSize(bs) == to - from
  {
    if bs != [] { TotalOfTiling(bs[1..], from + bs[0].size, to); }
  }

  lemma IndexOfBlock(bs: seq<Block>, from: int, to: int, i: nat)
    requires Tiles(bs, from, to) && i < |bs|
    ensures IndexOf(bs, bs[i].bp) == i
  {
    TilesBounds(bs, from, to);
  }

  // ---------------------------------------------------------------- lists in three parts

  lemma LiveConcat(x: seq<Block>, y: seq<Block>)
    ensures Live(x + y) == Live(x) + Live(y)
  {}

  lemma CoalescedConcat(x: seq<Block>, y: seq<Block>)
    ensures Coalesced(x + y) <==> Coalesced(x) && Coalesced(y) && !(LastFree(x) && FirstFree(y))
  {
    var z := x + y;
    if Coalesced(z) {
      assert forall i :: 0 <= i < |x| ==> z[i] == x[i];
      assert forall i :: 0 <= i < |y| ==> z[|x| + i] == y[i];
      forall i, j | 0 <= i && j == i + 1 && j < |y| ensures y[i].alloc || y[j].alloc {
        assert z[|x| + i].alloc || z[|x| + j].alloc;
      }
      var k := |x| - 1;
      assert |x| > 0 && |y| > 0 ==> z[k].alloc || z[k + 1].alloc;
    }
  }

  lemma CutAt(bs: seq<Block>, i: nat)
    requires i < |bs|
    ensures bs == bs[..i] + [bs[i]] + bs[i + 1..]
  {}

  /** A tiled list cut at block `i`. */
  lemma Cut(bs: seq<Block>, i: nat, from: int, to: int)
    requires Tiles(bs, from, to) && i < |bs|
    ensures bs == bs[..i] + [bs[i]] + bs[i + 1..]
    ensures Tiles(bs[..i], from, bs[i].bp) && Tiles(bs[i + 1..], bs[i].End(), to)
    ensures bs[i].size >= MIN_BLOCK && bs[i].size % 8 == 0
  {
    CutAt(bs, i);
    TilesSplit(bs, i, from, to);
    TilesSplit(bs, i + 1, from, to);
  }

  lemma OneBlockTiles(b: Block)
    requires b.size >= MIN_BLOCK && b.size % 8 == 0
    ensures Tiles([b], b.bp, b.End())
  {
    assert [b][1..] == [];
  }

  lemma TwoBlocksTile(b: Block, c: Block)
    requires b.size >= MIN_BLOCK && b.size % 8 == 0 && c.size >= MIN_BLOCK && c.size % 8 == 0
    requires c.bp == b.End()
    ensures Tiles([b, c], b.bp, c.End())
  {
    OneBlockTiles(c);
    assert [b, c][1..] == [c];
  }

  lemma ThreeParts(left: seq<Block>, mid: seq<Block>, right: seq<Block>)
    ensures Live(left + mid + right) == Live(left) + Live(mid) + Live(right)
    ensures mid != [] ==>
      (Coalesced(left + mid + right) <==>
         && Coalesced(left) && Coalesced(mid) && Coalesced(right)
         && !(LastFree(left) && FirstFree(mid)) && !(LastFree(mid) && FirstFree(right)))
  {
    LiveConcat(left, mid);
    LiveConcat(left + mid, right);
    CoalescedConcat(left, mid);
    CoalescedConcat(left + mid, right);
    if mid != [] { assert (left + mid)[|left + mid| - 1] == mid[|mid| - 1]; }
  }

  /** Blocks of a tiled range lie inside it. */
  lemma LiveInRange(bs: seq<Block>, from: int, to: int)
    requires Tiles(bs, from, to)
    ensures forall c :: c in Live(bs) ==> from <= c.bp && c.End() <= to && c.size >= MIN_BLOCK
  {
    TilesBounds(bs, from, to);
  }

  // ---------------------------------------------------------------- what the operations keep

  lemma PiecesTile(b: Block, asize: int)
    requires b.size >= MIN_BLOCK && b.size % 8 == 0
    requires MIN_BLOCK <= asize <= b.size && asize % 8 == 0
    ensures Tiles(Pieces(b, asize), b.bp, b.End())
    ensures Coalesced(Pieces(b, asize)) && !FirstFree(Pieces(b, asize))
    ensures Live(Pieces(b, asize)) == {Pieces(b, asize)[0]}
    ensures Pieces(b, asize)[0].bp == b.bp && asize <= Pieces(b, asize)[0].size <= asize + 8
  {
    if b.size - asize >= MIN_BLOCK {
      TwoBlocksTile(Block(b.bp, asize, true), Block(b.bp + asize, b.size - asize, false));
    } else {
      OneBlockTiles(b.(alloc := true));
    }
  }

  lemma SplitKeeps(h: Heap, i: nat, asize: int)
    requires WellFormed(h) && i < |h.blocks| && !h.blocks[i].alloc
    requires MIN_BLOCK <= asize <= h.blocks[i].size && asize % 8 == 0
    ensures WellFormed(Heap(Split(h.blocks, i, asize), h.brk))
    ensures i < |Split(h.blocks, i, asize)|
    ensures var b' := Split(h.blocks, i, asize)[i];
      && Live(Split(h.blocks, i, asize)) == Live(h.blocks) + {b'}
      && b' !in Live(h.blocks)
      && b'.bp == h.blocks[i].bp && asize <= b'.size <= asize + 8
  {
    var bs, b := h.blocks, h.blocks[i];
    var left, right, mid := bs[..i], bs[i + 1..], Pieces(b, asize);
    Cut(bs, i, FIRST_BP, h.brk);
    PiecesTile(b, asize);
    TilesJoin(left, mid, right, FIRST_BP, b.bp, b.End(), h.brk);
    ThreeParts(left, [b], right);
    ThreeParts(left, mid, right);
    LiveInRange(left, FIRST_BP, b.bp);
    LiveInRange(right, b.End(), h.brk);
    assert Split(bs, i, asize) == left + mid + right;
    assert (left + mid + right)[i] == mid[0];
  }

  lemma KeptLeftTiles(left: seq<Block>, from: int, mid: int)
    requires Tiles(left, from, mid)
    ensures LastFree(left) ==>
      var last := left[|left| - 1];
      last.End() == mid && last.size >= MIN_BLOCK && last.size % 8 == 0
    ensures Tiles(KeptLeft(left), from, if LastFree(left) then left[|left| - 1].bp else mid)
  {
    if LastFree(left) { TilesSplit(left, |left| - 1, from, mid); }
  }

  lemma KeptRightTiles(right: seq<Block>, mid: int, to: int)
    requires Tiles(right, mid, to)
    ensures FirstFree(right) ==> right[0].bp == mid && right[0].size >= MIN_BLOCK && right[0].size % 8 == 0
    ensures Tiles(KeptRight(right), if FirstFree(right) then right[0].End() else mid, to)
  {}

  lemma UnionTiles(left: seq<Block>, b: Block, right: seq<Block>, from: int, to: int)
    requires Tiles(left, from, b.bp) && Tiles(right, b.End(), to) && b.size >= MIN_BLOCK && b.size % 8 == 0
    ensures var u := Union(left, b, right);
      && Tiles(KeptLeft(left), from, u.bp) && Tiles(KeptRight(right), u.End(), to)
      && u.size >= b.size && u.size % 8 == 0
      && u.size == b.size + (if LastFree(left) then left[|left| - 1].size else 0)
                          + (if FirstFree(right) then right[0].size else 0)
  {
    hide Tiles, KeptLeft, KeptRight;
    KeptLeftTiles(left, from, b.bp);
    KeptRightTiles(right, b.End(), to);
  }

  /** Dropping the free neighbours drops no live block, and what is kept borders on live blocks. */
  lemma KeptSides(left: seq<Block>, right: seq<Block>)
    requires Coalesced(left) && Coalesced(right)
    ensures Live(KeptLeft(left)) == Live(left) && Coalesced(KeptLeft(left)) && !LastFree(KeptLeft(left))
    ensures Live(KeptRight(right)) == Live(right) && Coalesced(KeptRight(right)) && !FirstFree(KeptRight(right))
  {
    if LastFree(left) {
      var last := left[|left| - 1];
      assert left == KeptLeft(left) + [last];
      LiveConcat(KeptLeft(left), [last]);
      CoalescedConcat(KeptLeft(left), [last]);
    }
    if FirstFree(right) {
      assert right == [right[0]] + KeptRight(right);
      LiveConcat([right[0]], KeptRight(right));
      CoalescedConcat([right[0]], KeptRight(right));
    }
  }

  lemma MergeTiles(left: seq<Block>, b: Block, right: seq<Block>, from: int, to: int)
    requires Tiles(left, from, b.bp) && Tiles(right, b.End(), to) && b.size >= MIN_BLOCK && b.size % 8 == 0
    ensures Tiles(Merge(left, b, right), from, to)
  {
    var u := Union(left, b, right);
    UnionTiles(left, b, right, from, to);
    OneBlockTiles(u);
    TilesJoin(KeptLeft(left), [u], KeptRight(right), from, u.bp, u.End(), to);
  }

  lemma MergeKeepsLive(left: seq<Block>, b: Block, right: seq<Block>)
    requires !b.alloc && Coalesced(left) && Coalesced(right)
    ensures Coalesced(Merge(left, b, right))
    ensures Live(Merge(left, b, right)) == Live(left) + Live(right)
  {
    var u := Union(left, b, right);
    KeptSides(left, right);
    ThreeParts(KeptLeft(left), [u], KeptRight(right));
  }

  lemma MergeKeeps(left: seq<Block>, b: Block, right: seq<Block>, from: int, to: int)
    requires Tiles(left, from, b.bp) && Tiles(right, b.End(), to) && b.size >= MIN_BLOCK && b.size % 8 == 0
    requires !b.alloc && Coalesced(left) && Coalesced(right)
    ensures Tiles(Merge(left, b, right), from, to) && Coalesced(Merge(left, b, right))
    ensures Live(Merge(left, b, right)) == Live(left) + Live(right)
  {
    MergeTiles(left, b, right, from, to);
    MergeKeepsLive(left, b, right);
  }

  lemma FreeKeeps(h: Heap, i: nat)
    requires WellFormed(h) && i < |h.blocks| && h.blocks[i].alloc
    ensures WellFormed(Heap(FreeAt(h.blocks, i), h.brk))
    ensures Live(FreeAt(h.blocks, i)) == Live(h.blocks) - {h.blocks[i]}
  {
    var bs, b := h.blocks, h.blocks[i];
    var left, right := bs[..i], bs[i + 1..];
    Cut(bs, i, FIRST_BP, h.brk);
    ThreeParts(left, [b], right);
    MergeKeeps(left, b.(alloc := false), right, FIRST_BP, h.brk);
    LiveInRange(left, FIRST_BP, b.bp);
    LiveInRange(right, b.End(), h.brk);
  }

  lemma GrowKeeps(h: Heap, size: int)
    requires WellFormed(h) && size >= MIN_BLOCK && size % 8 == 0
    ensures WellFormed(Grow(h, size))
    ensures Live(Grow(h, size).blocks) == Live(h.blocks)
    ensures var u := Union(h.blocks, Block(h.brk, size, false), []);
      && Grow(h, size).blocks == KeptLeft(h.blocks) + [u] && u.size >= size && u.End() == h.brk + size
  {
    var b := Block(h.brk, size, false);
    MergeKeeps(h.blocks, b, [], FIRST_BP, h.brk + size);
    UnionTiles(h.blocks, b, [], FIRST_BP, h.brk + size);
    assert Grow(h, size).blocks == KeptLeft(h.blocks) + [Union(h.blocks, b, [])];
  }

  lemma OpenedAt(h: Heap, incr: int)
    requires WellFormed(h) && incr >= 0 && incr % 8 == 0
    ensures var u := Opened(h, incr);
      && u.bp >= FIRST_BP && !u.alloc && u.size >= incr && u.size % 8 == 0 && u.End() == h.brk + incr
      && (u.size == incr <==> incr == 0 || !LastFree(h.blocks))
      && (LastFree(h.blocks) && incr > 0 ==> u.size >= incr + MIN_BLOCK && u.bp == h.blocks[|h.blocks| - 1].bp)
  {
    TilesBounds(h.blocks, FIRST_BP, h.brk);
    KeptLeftTiles(h.blocks, FIRST_BP, h.brk);
  }

  /** The free block at the end of a heap that has just grown. */
  lemma GrowLast(h: Heap, size: int)
    requires WellFormed(h) && size >= MIN_BLOCK && size % 8 == 0
    ensures var u, last := Union(h.blocks, Block(h.brk, size, false), []), |KeptLeft(h.blocks)|;
      && last < |Grow(h, size).blocks| && Grow(h, size).blocks[last] == u
      && !u.alloc && u.bp >= FIRST_BP && u.size >= size
    ensures Live(Grow(h, size).blocks) == Live(h.blocks)
  {
    GrowKeeps(h, size);
    KeptLeftTiles(h.blocks, FIRST_BP, h.brk);
    TilesBounds(KeptLeft(h.blocks), FIRST_BP, Union(h.blocks, Block(h.brk, size, false), []).bp);
  }

  // ---------------------------------------------------------------- the list is determined by the live blocks

  lemma {:induction false} LiveOfTail(bs: seq<Block>, from: int, to: int)
    requires bs != [] && Tiles(bs, from, to)
    ensures Live(bs[1..]) == Live(bs) - {bs[0]}
  {
    TilesBounds(bs, from, to);
    forall c ensures c in Live(bs[1..]) <==> c in Live(bs) - {bs[0]} {
      assert c in bs <==> c == bs[0] || c in bs[1..];
    }
  }

  lemma {:induction false} FreeHeadsAgree(x: seq<Block>, y: seq<Block>, from: int, to: int)
    requires Tiles(x, from, to) && Tiles(y, from, to) && Coalesced(x) && x != [] && y != []
    requires Live(x) == Live(y) && !x[0].alloc && !y[0].alloc
    ensures y[0].End() <= x[0].End()
  {
    TilesBounds(x, from, to);
    TilesBounds(y, from, to);
    if |x| == 1 {
      assert x[1..] == [];
    } else {
      assert x[1..][0] == x[1];
      assert x[0].alloc || x[1].alloc;
      assert x[1] in Live(x);
      assert x[1] in y;
      var k :| 0 <= k < |y| && y[k] == x[1];
      assert k > 0;
    }
  }

  lemma {:induction false} LiveHeadIsHead(x: seq<Block>, y: seq<Block>, from: int, to: int)
    requires Tiles(x, from, to) && Tiles(y, from, to) && x != [] && y != []
    requires Live(x) == Live(y) && x[0].alloc
    ensures y[0] == x[0]
  {
    TilesBounds(y, from, to);
    assert x[0] in Live(y);
    var k :| 0 <= k < |y| && y[k] == x[0];
  }

  lemma HeadsAgree(x: seq<Block>, y: seq<Block>, from: int, to: int)
    requires Tiles(x, from, to) && Tiles(y, from, to) && Coalesced(x) && Coalesced(y) && x != [] && y != []
    requires Live(x) == Live(y)
    ensures x[0] == y[0]
  {
    if x[0].alloc {
      LiveHeadIsHead(x, y, from, to);
    } else if y[0].alloc {
      LiveHeadIsHead(y, x, from, to);
    } else {
      FreeHeadsAgree(x, y, from, to);
      FreeHeadsAgree(y, x, from, to);
    }
  }

  /** A coalesced tiling of a range is determined by its live blocks alone. */
  lemma {:induction false} Canonical(x: seq<Block>, y: seq<Block>, from: int, to: int)
    requires Tiles(x, from, to) && Tiles(y, from, to) && Coalesced(x) && Coalesced(y)
    requires Live(x) == Live(y)
    ensures x == y
    decreases |x|
  {
    TilesBounds(x, from, to);
    TilesBounds(y, from, to);
    if x != [] && y != [] {
      HeadsAgree(x, y, from, to);
      LiveOfTail(x, from, to);
      LiveOfTail(y, from, to);
      CoalescedTail(x);
      CoalescedTail(y);
      Canonical(x[1..], y[1..], from + x[0].size, to);
      assert x == [x[0]] + x[1..] && y == [y[0]] + y[1..];
    }
  }

  lemma CoalescedTail(bs: seq<Block>)
    requires Coalesced(bs) && bs != []
    ensures Coalesced(bs[1..])
  {
    forall i, j | 0 <= i && j == i + 1 && j < |bs[1..]| ensures bs[1..][i].alloc || bs[1..][j].alloc {
      assert bs[1..][i] == bs[i + 1] && bs[1..][j] == bs[j + 1];
    }
  }

  /** Freeing what a split has just handed out restores the list, whether or not it had to cut. */
  lemma FreeUndoesSplit(h: Heap, i: nat, asize: int)
    requires WellFormed(h) && i < |h.blocks| && !h.blocks[i].alloc
    requires MIN_BLOCK <= asize <= h.blocks[i].size && asize % 8 == 0
    ensures i < |Split(h.blocks, i, asize)| && FreeAt(Split(h.blocks, i, asize), i) == h.blocks
  {
    SplitKeeps(h, i, asize);
    var h' := Heap(Split(h.blocks, i, asize), h.brk);
    FreeKeeps(h', i);
    Canonical(FreeAt(h'.blocks, i), h.blocks, FIRST_BP, h.brk);
  }

  /** A heap without live blocks is one free block over everything but pad, prologue and epilogue. */
  lemma AllFreeIsOneBlock(h: Heap)
    requires WellFormed(h) && h.brk > FIRST_BP && Live(h.blocks) == {}
    ensures h.blocks == [Block(FIRST_BP, h.brk - FIRST_BP, false)]
  {
    var one := [Block(FIRST_BP, h.brk - FIRST_BP, false)];
    TilesBounds(h.blocks, FIRST_BP, h.brk);
    assert one[1..] == [];
    assert h.blocks != [];
    assert h.blocks[0].End() <= h.brk;
    assert Tiles(one, FIRST_BP, h.brk);
    Canonical(h.blocks, one, FIRST_BP, h.brk);
  }
}
