/**
 The heap as it lies in memory: bytes, little-endian 4-byte words, and boundary tags.  `Encodes`
 says that a memory holds a given block list; the methods rewrite tags in place, find their way
 from stored sizes only, and are proved against the list operations of `BlockList`.
 */
module TagMemory {
  import opened BlockList
  import opened Machine
  import Bits

  /** The word made of four bytes, least significant first. */
  function Join(b0: int, b1: int, b2: int, b3: int): int {
    b0 + 0x100 * b1 + 0x1_0000 * b2 + 0x100_0000 * b3
  }

  function Word(m: seq<byte>, a: int): int
    requires 0 <= a && a + 4 <= |m|
  {
    Join(m[a], m[a + 1], m[a + 2], m[a + 3])
  }

  function Tag(size: int, alloc: bool): int { size + if alloc then 1 else 0 }

  function SizeField(w: int): int { w - w % 8 }

  predicate AllocField(w: int) { w % 2 == 1 }

  /** The arithmetic tags are the bit operations of `PACK`, `GET_SIZE` and `GET_ALLOC`. */
  lemma TagsAreBits(size: nat, alloc: bool, w: nat)
    requires size % 2 == 0 && w < TWO32
    ensures Tag(size, alloc) == Bits.Or(size, if alloc then 1 else 0)
    ensures SizeField(w) == Bits.And(w, 0xFFFF_FFF8)
    ensures AllocField(w) <==> Bits.And(w, 1) == 1
  {
    hide Bits.Or, Bits.And;
    Bits.PackIsSum(size, if alloc then 1 else 0);
    Bits.SizeMask(w);
    Bits.AllocMask(w);
  }

  lemma TagSize(q: int, alloc: bool)
    ensures SizeField(Tag(8 * q, alloc)) == 8 * q
  {}

  lemma TagAlloc(q: int, alloc: bool)
    ensures AllocField(Tag(2 * q, alloc)) == alloc
  {}

  lemma TagFields(size: int, alloc: bool)
    requires size % 8 == 0
    ensures SizeField(Tag(size, alloc)) == size && AllocField(Tag(size, alloc)) == alloc
  {
    TagSize(size / 8, alloc);
    TagAlloc(4 * (size / 8), alloc);
  }

  // ---------------------------------------------------------------- the encoding

  ghost predicate Tagged(m: seq<byte>, b: Block) {
    && 4 <= b.bp && 8 <= b.size && b.End() - 4 <= |m|
    && Word(m, b.bp - 4) == Tag(b.size, b.alloc)
    && Word(m, b.End() - 8) == Tag(b.size, b.alloc)
  }

  ghost predicate AllTagged(m: seq<byte>, bs: seq<Block>) {
    forall i :: 0 <= i < |bs| ==> Tagged(m, bs[i])
  }

  /** Prologue header and footer, and the epilogue header just below the break. */
  ghost predicate Framed(m: seq<byte>, brk: int) {
    && FIRST_BP <= brk <= |m| <= INT_MAX
    && Word(m, 4) == Tag(8, true) && Word(m, 8) == Tag(8, true)
    && Word(m, brk - 4) == Tag(0, true)
  }

  ghost predicate Encodes(m: seq<byte>, bs: seq<Block>, brk: int) {
    Framed(m, brk) && Tiles(bs, FIRST_BP, brk) && AllTagged(m, bs)
  }

  /** The two memories agree outside `[lo, hi)`. */
  ghost predicate SameOutside(m: seq<byte>, m': seq<byte>, lo: int, hi: int) {
    |m| == |m'| && forall a :: 0 <= a < |m| && !(lo <= a < hi) ==> m[a] == m'[a]
  }

  lemma WordFrame(m: seq<byte>, m': seq<byte>, lo: int, hi: int, a: int)
    requires SameOutside(m, m', lo, hi) && 0 <= a && a + 4 <= |m| && (a + 4 <= lo || hi <= a)
    ensures Word(m, a) == Word(m', a)
  {}

  lemma SameRefl(m: seq<byte>, lo: int, hi: int)
    ensures SameOutside(m, m, lo, hi)
  {}

  lemma SameTwice(m: seq<byte>, m1: seq<byte>, m2: seq<byte>, lo1: int, hi1: int, lo2: int, hi2: int, lo: int, hi: int)
    requires SameOutside(m, m1, lo1, hi1) && SameOutside(m1, m2, lo2, hi2)
    requires lo <= lo1 && lo <= lo2 && hi1 <= hi && hi2 <= hi
    ensures SameOutside(m, m2, lo, hi)
  {}

  lemma SameMore(m: seq<byte>, m': seq<byte>, lo: int, hi: int, lo': int, hi': int)
    requires SameOutside(m, m', lo, hi) && lo' <= lo && hi <= hi'
    ensures SameOutside(m, m', lo', hi')
  {}

  lemma TagsFrame(m: seq<byte>, m': seq<byte>, lo: int, hi: int, bs: seq<Block>, from: int, to: int)
    requires SameOutside(m, m', lo - 4, hi - 4) && AllTagged(m, bs) && Tiles(bs, from, to)
    requires to <= lo || hi <= from
    ensures AllTagged(m', bs)
  {
    TilesBounds(bs, from, to);
    forall i | 0 <= i < |bs| ensures Tagged(m', bs[i]) {
      assert Tagged(m, bs[i]);
      WordFrame(m, m', lo - 4, hi - 4, bs[i].bp - 4);
      WordFrame(m, m', lo - 4, hi - 4, bs[i].End() - 8);
    }
  }

  /** Rewriting the tags of one stretch of blocks leaves an encoding of the list with that stretch replaced. */
  lemma Rebuild(m: seq<byte>, m': seq<byte>, left: seq<Block>, mid: seq<Block>, right: seq<Block>,
                lo: int, hi: int, brk: int)
    requires Framed(m, brk) && FIRST_BP <= lo <= hi
    requires Tiles(left, FIRST_BP, lo) && Tiles(mid, lo, hi) && Tiles(right, hi, brk)
    requires AllTagged(m, left) && AllTagged(m, right) && AllTagged(m', mid)
    requires SameOutside(m, m', lo - 4, hi - 4)
    ensures Encodes(m', left + mid + right, brk)
  {
    TilesJoin(left, mid, right, FIRST_BP, lo, hi, brk);
    TilesBounds(right, hi, brk);
    TagsFrame(m, m', lo, hi, left, FIRST_BP, lo);
    TagsFrame(m, m', lo, hi, right, hi, brk);
    WordFrame(m, m', lo - 4, hi - 4, 4);
    WordFrame(m, m', lo - 4, hi - 4, 8);
    WordFrame(m, m', lo - 4, hi - 4, brk - 4);
  }

  lemma EncodedBounds(m: seq<byte>, bs: seq<Block>, brk: int)
    requires Encodes(m, bs, brk)
    ensures FIRST_BP <= brk <= |m| <= INT_MAX && Tiles(bs, FIRST_BP, brk)
  {}

  lemma EncodedParts(m: seq<byte>, left: seq<Block>, b: Block, right: seq<Block>, brk: int)
    requires Encodes(m, left + [b] + right, brk)
    ensures Tiles(left, FIRST_BP, b.bp) && Tiles(right, b.End(), brk)
    ensures b.size >= MIN_BLOCK && b.size % 8 == 0 && FIRST_BP <= b.bp && b.End() <= brk
    ensures AllTagged(m, left) && AllTagged(m, right) && Tagged(m, b)
  {
    var bs, l := left + [b] + right, |left|;
    Cut(bs, l, FIRST_BP, brk);
    assert bs[l] == b && bs[..l] == left && bs[l + 1..] == right;
    TilesBounds(left, FIRST_BP, b.bp);
    TilesBounds(right, b.End(), brk);
    forall i | 0 <= i < |left| ensures Tagged(m, left[i]) { assert left[i] == bs[i]; }
    forall i | 0 <= i < |right| ensures Tagged(m, right[i]) { assert right[i] == bs[l + 1 + i]; }
  }

  /** The block before the next one: the last of `left`, or the prologue. */
  function PrevOf(left: seq<Block>): Block {
    if left == [] then Block(8, 8, true) else left[|left| - 1]
  }

  /** The block after the previous one: the first of `right`, or the epilogue (a header only). */
  function NextOf(right: seq<Block>, brk: int): Block {
    if right == [] then Block(brk, 0, true) else right[0]
  }

  /** What the tags before address `to` say, where the blocks of `left` end. */
  lemma BlockBefore(m: seq<byte>, left: seq<Block>, to: int, brk: int)
    requires Framed(m, brk) && Tiles(left, FIRST_BP, to) && AllTagged(m, left) && to <= brk
    ensures FIRST_BP <= to && to % 8 == 0
    ensures var p := PrevOf(left);
      && 8 <= p.bp && p.End() == to && 8 <= p.size && p.size % 8 == 0
      && Word(m, to - 8) == Tag(p.size, p.alloc) && Word(m, p.bp - 4) == Tag(p.size, p.alloc)
      && (LastFree(left) <==> !p.alloc) && (!p.alloc ==> MIN_BLOCK <= p.size)
  {
    hide Word, Tiles;
    TilesEnds(left, FIRST_BP, to);
    if left != [] { assert Tagged(m, left[|left| - 1]); }
  }

  lemma TilesEnds(bs: seq<Block>, from: int, to: int)
    requires Tiles(bs, from, to)
    ensures from <= to && (to - from) % 8 == 0
    ensures if bs == [] then from == to
      else bs[|bs| - 1].End() == to && from <= bs[|bs| - 1].bp && MIN_BLOCK <= bs[|bs| - 1].size && bs[|bs| - 1].size % 8 == 0
  {
    TilesBounds(bs, from, to);
    if bs != [] { TilesSplit(bs, |bs| - 1, from, to); }
  }

  /** What the tags behind address `from` say, where the blocks of `right` begin. */
  lemma BlockAfter(m: seq<byte>, right: seq<Block>, from: int, brk: int)
    requires Framed(m, brk) && Tiles(right, from, brk) && AllTagged(m, right) && FIRST_BP <= from
    ensures var n := NextOf(right, brk);
      && n.bp == from && from <= n.End() <= brk && n.size % 8 == 0
      && Word(m, from - 4) == Tag(n.size, n.alloc)
      && (FirstFree(right) <==> !n.alloc)
      && (!n.alloc ==> MIN_BLOCK <= n.size && Word(m, n.End() - 8) == Tag(n.size, n.alloc))
  {
    hide Word;
    TilesBounds(right, from, brk);
    if right != [] { assert Tagged(m, right[0]); }
  }

  /** What the boundary tags next to block `b` say. */
  lemma Neighbours(m: seq<byte>, left: seq<Block>, b: Block, right: seq<Block>, brk: int)
    requires Encodes(m, left + [b] + right, brk)
    ensures FIRST_BP <= b.bp && b.End() <= brk <= |m| && MIN_BLOCK <= b.size
    ensures var p := PrevOf(left);
      && 8 <= p.bp && p.End() == b.bp && 8 <= p.size && p.size % 8 == 0
      && Word(m, b.bp - 8) == Tag(p.size, p.alloc) && Word(m, p.bp - 4) == Tag(p.size, p.alloc)
      && (LastFree(left) <==> !p.alloc) && (!p.alloc ==> MIN_BLOCK <= p.size)
    ensures var n := NextOf(right, brk);
      && n.bp == b.End() && n.End() <= brk && n.size % 8 == 0
      && Word(m, b.End() - 4) == Tag(n.size, n.alloc)
      && (FirstFree(right) <==> !n.alloc)
      && (!n.alloc ==> MIN_BLOCK <= n.size && Word(m, n.End() - 8) == Tag(n.size, n.alloc))
  {
    hide Word, Tiles;
    EncodedParts(m, left, b, right, brk);
    BlockBefore(m, left, b.bp, brk);
    BlockAfter(m, right, b.End(), brk);
  }

  // ---------------------------------------------------------------- words and navigation

  function Get(mem: array<byte>, a: int): int
    reads mem
    requires 0 <= a && a + 4 <= mem.Length
  {
    Join(mem[a], mem[a + 1], mem[a + 2], mem[a + 3])
  }

  function GetSize(mem: array<byte>, a: int): int
    reads mem
    requires 0 <= a && a + 4 <= mem.Length
  {
    SizeField(Get(mem, a))
  }

  predicate GetAlloc(mem: array<byte>, a: int)
    reads mem
    requires 0 <= a && a + 4 <= mem.Length
  {
    AllocField(Get(mem, a))
  }

  function NextBlkp(mem: array<byte>, bp: int): int
    reads mem
    requires 4 <= bp <= mem.Length
  {
    bp + GetSize(mem, bp - 4)
  }

  function PrevBlkp(mem: array<byte>, bp: int): int
    reads mem
    requires 8 <= bp && bp - 4 <= mem.Length
  {
    bp - GetSize(mem, bp - 8)
  }

  function Ftrp(mem: array<byte>, bp: int): int
    reads mem
    requires 4 <= bp <= mem.Length
  {
    bp + GetSize(mem, bp - 4) - 8
  }

  lemma Digits(v: int)
    requires 0 <= v < TWO32
    ensures Join(v % 0x100, v / 0x100 % 0x100, v / 0x1_0000 % 0x100, v / 0x100_0000) == v
    ensures v / 0x100_0000 < 0x100
  {
    assert v / 0x1_0000 == (v / 0x100) / 0x100;
    assert v / 0x100_0000 == (v / 0x1_0000) / 0x100;
  }

  method Put(mem: array<byte>, a: int, v: int)
    requires 0 <= a && a + 4 <= mem.Length && 0 <= v < TWO32
    modifies mem
    ensures Word(mem[..], a) == v
    ensures SameOutside(old(mem[..]), mem[..], a, a + 4)
  {
    Digits(v);
    mem[a] := v % 0x100;
    mem[a + 1] := v / 0x100 % 0x100;
    mem[a + 2] := v / 0x1_0000 % 0x100;
    mem[a + 3] := v / 0x100_0000;
  }

  lemma GetIsWord(mem: array<byte>, a: int)
    requires 0 <= a && a + 4 <= mem.Length
    ensures Get(mem, a) == Word(mem[..], a)
  {}

  /** Reading a word that holds a tag. */
  lemma Reads(mem: array<byte>, a: int, size: int, alloc: bool)
    requires 0 <= a && a + 4 <= mem.Length && size % 8 == 0 && Word(mem[..], a) == Tag(size, alloc)
    ensures GetSize(mem, a) == size && GetAlloc(mem, a) == alloc
  {
    TagFields(size, alloc);
  }

  // ---------------------------------------------------------------- tag rewriting

  /**
   Writes header and footer of the block at `bp`; the footer is found from the header just written.
   A block of size 0 has its footer before its header, in the word that ends the block before it.
   */
  method PutTags(mem: array<byte>, bp: int, size: int, alloc: bool)
    requires 8 <= bp && 0 <= size && size % 8 == 0 && bp + size - 4 <= mem.Length <= INT_MAX && bp <= mem.Length
    modifies mem
    ensures Word(mem[..], bp - 4) == Tag(size, alloc) && Word(mem[..], bp + size - 8) == Tag(size, alloc)
    ensures size > 0 ==> SameOutside(old(mem[..]), mem[..], bp - 4, bp + size - 4)
    ensures size == 0 ==> SameOutside(old(mem[..]), mem[..], bp - 8, bp)
  {
    hide Word, Get, GetSize, GetAlloc, SameOutside;
    ghost var m := mem[..];
    Put(mem, bp - 4, Tag(size, alloc));
    Reads(mem, bp - 4, size, alloc);
    ghost var m1 := mem[..];
    Put(mem, Ftrp(mem, bp), Tag(size, alloc));
    WordFrame(m1, mem[..], bp + size - 8, bp + size - 4, bp - 4);
    if size > 0 {
      SameTwice(m, m1, mem[..], bp - 4, bp, bp + size - 8, bp + size - 4, bp - 4, bp + size - 4);
    } else {
      SameTwice(m, m1, mem[..], bp - 4, bp, bp - 8, bp - 4, bp - 8, bp);
    }
  }

  /** What `coalesce` reads around a free block `b`: the tags of the blocks before and after it. */
  ghost predicate Beside(m: seq<byte>, prev: Block, b: Block, next: Block) {
    && Tagged(m, b) && !b.alloc && b.size % 8 == 0 && |m| <= INT_MAX
    && 8 <= prev.bp && prev.End() == b.bp && 8 <= prev.size && prev.size % 8 == 0
    && Word(m, b.bp - 8) == Tag(prev.size, prev.alloc) && Word(m, prev.bp - 4) == Tag(prev.size, prev.alloc)
    && next.bp == b.End() && 0 <= next.size && next.End() <= |m| && next.size % 8 == 0
    && Word(m, next.bp - 4) == Tag(next.size, next.alloc)
    && (!next.alloc ==> 8 <= next.size && Word(m, next.End() - 8) == Tag(next.size, next.alloc))
  }

  /** What it reads when the break has "moved" by 0 bytes: a header without a block, and a cleared footer. */
  ghost predicate Emptied(m: seq<byte>, bp: int) {
    && FIRST_BP <= bp <= |m| <= INT_MAX
    && Word(m, bp - 8) == Tag(0, false) && Word(m, bp - 4) == Tag(0, true)
  }

  /** The block and those of its neighbours that are free. */
  function Joined(prev: Block, b: Block, next: Block): Block {
    var start := if prev.alloc then b.bp else prev.bp;
    var end := if next.alloc then b.End() else next.End();
    Block(start, end - start, false)
  }

  /** `coalesce`, from tags to tags. */
  method CoalesceTags(mem: array<byte>, bp: int, ghost prev: Block, ghost b: Block, ghost next: Block) returns (p: int)
    requires b.bp == bp
    requires Beside(mem[..], prev, b, next) || (Emptied(mem[..], bp) && b.size == 0 && prev == b)
    modifies mem
    ensures b.size > 0 ==>
      var u := Joined(prev, b, next);
      p == u.bp && Tagged(mem[..], u) && SameOutside(old(mem[..]), mem[..], u.bp - 4, u.End() - 4)
    ensures b.size == 0 ==>
      && p == bp && Word(mem[..], bp - 8) == Tag(0, false) && Word(mem[..], bp - 4) == Tag(0, false)
      && SameOutside(old(mem[..]), mem[..], bp - 8, bp)
  {
    hide Word, Get, GetSize, GetAlloc, SameOutside;
    ghost var m := mem[..];
    if b.size == 0 {
      Reads(mem, bp - 8, 0, false);
      Reads(mem, bp - 4, 0, true);
    } else {
      Reads(mem, bp - 8, prev.size, prev.alloc);
      Reads(mem, prev.bp - 4, prev.size, prev.alloc);
      Reads(mem, bp - 4, b.size, b.alloc);
      Reads(mem, b.End() - 4, next.size, next.alloc);
    }
    var prevAlloc := GetAlloc(mem, Ftrp(mem, PrevBlkp(mem, bp)));
    var nextAlloc := GetAlloc(mem, NextBlkp(mem, bp) - 4);
    var size := GetSize(mem, bp - 4);
    if prevAlloc && nextAlloc {
      SameRefl(m, bp - 4, b.End() - 4);
      p := bp;
    } else if prevAlloc && !nextAlloc {
      p := CoalesceNext(mem, bp, size, b, next);
    } else if !prevAlloc && nextAlloc {
      p := CoalescePrev(mem, bp, size, prev, b);
    } else {
      p := CoalesceBoth(mem, bp, size, prev, b, next);
    }
  }

  /** `coalesce`: merges the free block at `bp` with its free neighbours and gives the merged block. */
  method Coalesce(mem: array<byte>, bp: int, ghost left: seq<Block>, ghost b: Block, ghost right: seq<Block>, ghost brk: int)
    returns (p: int)
    requires Encodes(mem[..], left + [b] + right, brk) && b.bp == bp && !b.alloc
    modifies mem
    ensures Encodes(mem[..], Merge(left, b, right), brk)
    ensures p == Union(left, b, right).bp
    ensures SameOutside(old(mem[..]), mem[..], Union(left, b, right).bp - 4, Union(left, b, right).End() - 4)
  {
    hide Word, Get, GetSize, GetAlloc, SameOutside, Tiles, KeptLeft, KeptRight, Merge, AllTagged;
    ghost var m := mem[..];
    EncodedParts(m, left, b, right, brk);
    Neighbours(m, left, b, right, brk);
    p := CoalesceTags(mem, bp, PrevOf(left), b, NextOf(right, brk));
    MergeEncoded(m, mem[..], left, b, right, brk);
  }

  /** Tags for the union of a free block and its free neighbours encode the merged list. */
  lemma MergeEncoded(m: seq<byte>, m': seq<byte>, left: seq<Block>, b: Block, right: seq<Block>, brk: int)
    requires Encodes(m, left + [b] + right, brk) && !b.alloc
    requires Tagged(m', Union(left, b, right))
    requires SameOutside(m, m', Union(left, b, right).bp - 4, Union(left, b, right).End() - 4)
    ensures Encodes(m', Merge(left, b, right), brk)
  {
    hide Word, SameOutside, Tiles;
    var u := Union(left, b, right);
    EncodedParts(m, left, b, right, brk);
    UnionTiles(left, b, right, FIRST_BP, brk);
    OneBlockTiles(u);
    KeptTagged(m, left, right);
    TilesBounds(KeptLeft(left), FIRST_BP, u.bp);
    Rebuild(m, m', KeptLeft(left), [u], KeptRight(right), u.bp, u.End(), brk);
  }

  lemma KeptTagged(m: seq<byte>, left: seq<Block>, right: seq<Block>)
    requires AllTagged(m, left) && AllTagged(m, right)
    ensures AllTagged(m, KeptLeft(left)) && AllTagged(m, KeptRight(right))
  {}

  /** Case 2: the next block is free, the previous one is not. */
  method CoalesceNext(mem: array<byte>, bp: int, size0: int, ghost b: Block, ghost next: Block) returns (p: int)
    requires mem.Length <= INT_MAX && 8 <= bp == b.bp && size0 == b.size && 8 <= b.size && b.size % 8 == 0
    requires next.bp == b.End() && 8 <= next.size && next.size % 8 == 0 && next.End() <= mem.Length
    requires Word(mem[..], bp - 4) == Tag(b.size, false) && Word(mem[..], next.bp - 4) == Tag(next.size, false)
    modifies mem
    ensures p == bp && Tagged(mem[..], Block(b.bp, b.size + next.size, false))
    ensures SameOutside(old(mem[..]), mem[..], b.bp - 4, next.End() - 4)
  {
    hide Word, Get, GetSize, GetAlloc, SameOutside;
    ghost var m := mem[..];
    Reads(mem, bp - 4, b.size, false);
    Reads(mem, next.bp - 4, next.size, false);
    var size := size0 + GetSize(mem, NextBlkp(mem, bp) - 4);
    Put(mem, bp - 4, Tag(size, false));
    ghost var m1 := mem[..];
    Reads(mem, bp - 4, size, false);
    Put(mem, Ftrp(mem, bp), Tag(size, false));
    WordFrame(m1, mem[..], bp + size - 8, bp + size - 4, bp - 4);
    SameTwice(m, m1, mem[..], bp - 4, bp, bp + size - 8, bp + size - 4, bp - 4, bp + size - 4);
    p := bp;
  }

  /** Case 3: the previous block is free, the next one is not. */
  method CoalescePrev(mem: array<byte>, bp: int, size0: int, ghost prev: Block, ghost b: Block) returns (p: int)
    requires 8 <= prev.bp && 0 <= prev.size && prev.size % 8 == 0
    requires bp == b.bp == prev.End() && size0 == b.size && 0 <= b.size && b.size % 8 == 0
    requires b.End() <= mem.Length <= INT_MAX && (b.size == 0 ==> prev.size == 0)
    requires SizeField(Word(mem[..], prev.bp - 4)) == prev.size && Word(mem[..], bp - 8) == Tag(prev.size, false)
    requires SizeField(Word(mem[..], bp - 4)) == b.size
    modifies mem
    ensures p == prev.bp
    ensures Word(mem[..], prev.bp - 4) == Tag(prev.size + b.size, false) == Word(mem[..], b.End() - 8)
    ensures b.size > 0 ==> SameOutside(old(mem[..]), mem[..], prev.bp - 4, b.End() - 4)
    ensures b.size == 0 ==> SameOutside(old(mem[..]), mem[..], bp - 8, bp)
  {
    hide Word, Get, SizeField, SameOutside;
    Reads(mem, bp - 8, prev.size, false);
    GetIsWord(mem, prev.bp - 4);
    GetIsWord(mem, bp - 4);
    var size := size0 + GetSize(mem, PrevBlkp(mem, bp) - 4);
    ghost var m := mem[..];
    Put(mem, Ftrp(mem, bp), Tag(size, false));
    ghost var m1 := mem[..];
    if b.size > 0 { WordFrame(m, m1, b.End() - 8, b.End() - 4, bp - 8); }
    Reads(mem, bp - 8, prev.size, false);
    Put(mem, PrevBlkp(mem, bp) - 4, Tag(size, false));
    WordFrame(m1, mem[..], prev.bp - 4, prev.bp, bp - 8);
    WordFrame(m1, mem[..], prev.bp - 4, prev.bp, b.End() - 8);
    Reads(mem, bp - 8, prev.size, false);
    if b.size > 0 {
      SameTwice(m, m1, mem[..], b.End() - 8, b.End() - 4, prev.bp - 4, prev.bp, prev.bp - 4, b.End() - 4);
    } else {
      SameTwice(m, m1, mem[..], bp - 8, bp - 4, bp - 4, bp, bp - 8, bp);
    }
    p := PrevBlkp(mem, bp);
  }

  /** Case 4: both neighbours are free. */
  method CoalesceBoth(mem: array<byte>, bp: int, size0: int, ghost prev: Block, ghost b: Block, ghost next: Block)
    returns (p: int)
    requires mem.Length <= INT_MAX && 8 <= prev.bp && 8 <= prev.size && prev.size % 8 == 0
    requires bp == b.bp == prev.End() && size0 == b.size && 8 <= b.size && b.size % 8 == 0
    requires next.bp == b.End() && 8 <= next.size && next.size % 8 == 0 && next.End() <= mem.Length
    requires Word(mem[..], prev.bp - 4) == Tag(prev.size, false) && Word(mem[..], bp - 8) == Tag(prev.size, false)
    requires Word(mem[..], bp - 4) == Tag(b.size, false)
    requires Word(mem[..], next.bp - 4) == Tag(next.size, false) && Word(mem[..], next.End() - 8) == Tag(next.size, false)
    modifies mem
    ensures p == prev.bp && Tagged(mem[..], Block(prev.bp, prev.size + b.size + next.size, false))
    ensures SameOutside(old(mem[..]), mem[..], prev.bp - 4, next.End() - 4)
  {
    hide Word, Get, GetSize, GetAlloc, SameOutside;
    Reads(mem, bp - 4, b.size, false);
    Reads(mem, bp - 8, prev.size, false);
    Reads(mem, prev.bp - 4, prev.size, false);
    Reads(mem, next.bp - 4, next.size, false);
    Reads(mem, next.End() - 8, next.size, false);
    var size := size0 + GetSize(mem, PrevBlkp(mem, bp) - 4) + GetSize(mem, Ftrp(mem, NextBlkp(mem, bp)));
    ghost var m := mem[..];
    Put(mem, PrevBlkp(mem, bp) - 4, Tag(size, false));
    ghost var m1 := mem[..];
    WordFrame(m, m1, prev.bp - 4, prev.bp, bp - 4);
    WordFrame(m, m1, prev.bp - 4, prev.bp, bp - 8);
    WordFrame(m, m1, prev.bp - 4, prev.bp, next.bp - 4);
    Reads(mem, bp - 4, b.size, false);
    Reads(mem, next.bp - 4, next.size, false);
    Put(mem, Ftrp(mem, NextBlkp(mem, bp)), Tag(size, false));
    WordFrame(m1, mem[..], next.End() - 8, next.End() - 4, bp - 8);
    WordFrame(m1, mem[..], next.End() - 8, next.End() - 4, prev.bp - 4);
    Reads(mem, bp - 8, prev.size, false);
    SameTwice(m, m1, mem[..], prev.bp - 4, prev.bp, next.End() - 8, next.End() - 4, prev.bp - 4, next.End() - 4);
    p := PrevBlkp(mem, bp);
  }

  /** The part of a `size_t` that a 4-byte tag can hold. */
  function Stored(n: nat): nat { n % TWO32 }

  /** Subtraction in `size_t`. */
  function Minus(w: Width, x: nat, y: nat): nat { (x - y) % w.Modulus() }

  /** What is left of `csize` in `size_t`, and what of that a tag holds, when the stored part of `asize` is no larger. */
  lemma StoredRest(w: Width, csize: nat, asize: nat)
    requires csize <= INT_MAX && asize < w.Modulus() && Stored(asize) <= csize
    ensures Stored(Minus(w, csize, asize)) == csize - Stored(asize)
    ensures asize <= csize <==> Stored(asize) == asize
    ensures asize <= csize ==> Minus(w, csize, asize) == csize - asize
    ensures asize > csize ==> Minus(w, csize, asize) == w.Modulus() + csize - asize
  {
    if asize > csize {
      var q := asize / TWO32;
      assert w == Bits64 && 0 < q < TWO32;
      var d := TWO64 + csize - asize;
      assert 0 <= d < TWO64;
      assert d == (TWO32 - q) * TWO32 + (csize - Stored(asize));
      DivModOf(d, TWO32 - q, csize - Stored(asize));
    }
  }

  lemma DivModOf(d: nat, q: nat, r: nat)
    requires d == q * TWO32 + r && r < TWO32
    ensures d % TWO32 == r
  {}

  /** `place` cuts the block: in `size_t` the rest is at least 16, also when `asize` is the larger. */
  predicate Cuts(w: Width, csize: nat, asize: nat) { Minus(w, csize, asize) >= MIN_BLOCK }

  /**
   The tags `place` leaves at a free block of `c` bytes.  A stored size of 0 leaves the block free and
   puts the new tag over the footer before it; a stored size of all of the block puts an empty free
   block behind it.
   */
  ghost predicate Placed(m: seq<byte>, bp: int, w: Width, c: nat, asize: nat)
    requires 8 <= bp && bp + c <= |m|
  {
    var a := Stored(asize);
    if Cuts(w, c, asize) then
      && a <= c
      && Word(m, bp + a - 4) == Tag(c - a, false) == Word(m, bp + c - 8)
      && (0 < a ==> Word(m, bp - 4) == Tag(a, true))
      && (a < c ==> Word(m, bp + a - 8) == Tag(a, true))
    else
      Word(m, bp - 4) == Tag(c, true) == Word(m, bp + c - 8)
  }

  /** `place` and `mark`, from tags to tags. */
  method Place(mem: array<byte>, bp: int, asize: nat, w: Width, ghost c: nat)
    requires 8 <= bp && c % 8 == 0 && bp + c <= mem.Length <= INT_MAX
    requires Word(mem[..], bp - 4) == Tag(c, false)
    requires asize < w.Modulus() && asize % 8 == 0 && Stored(asize) <= c && (c == 0 ==> Cuts(w, c, asize))
    modifies mem
    ensures Placed(mem[..], bp, w, c, asize)
    ensures var a, cut := Stored(asize), Cuts(w, c, asize);
      SameOutside(old(mem[..]), mem[..], bp - (if cut && a == 0 then 8 else 4), bp + c - (if cut && a == c then 0 else 4))
  {
    hide Word, Get, GetSize, GetAlloc, SameOutside, Minus, Stored;
    ghost var m, a := mem[..], Stored(asize);
    Reads(mem, bp - 4, c, false);
    StoredRest(w, c, asize);
    StoredAligned(asize);
    var csize := GetSize(mem, bp - 4);
    if Minus(w, csize, asize) >= 2 * 8 {
      PutTags(mem, bp, Stored(asize), true);
      Reads(mem, bp - 4, a, true);
      ghost var m1 := mem[..];
      var rest := NextBlkp(mem, bp);
      PutTags(mem, rest, Stored(Minus(w, csize, asize)), false);
      TwoTags(m, m1, mem[..], bp, a, c);
    } else {
      PutTags(mem, bp, csize, true);
    }
  }

  lemma StoredWhole(n: nat)
    requires n <= INT_MAX
    ensures Stored(n) == n
  {}

  lemma StoredAligned(n: nat)
    requires n % 8 == 0
    ensures Stored(n) % 8 == 0
  {}

  /** Tags for `a` bytes at `bp`, then tags for the other `c - a` behind them. */
  lemma TwoTags(m: seq<byte>, m1: seq<byte>, m2: seq<byte>, bp: int, a: int, c: int)
    requires 8 <= bp && 0 <= a <= c && a % 8 == 0 && c % 8 == 0 && bp + c <= |m| == |m1| == |m2|
    requires SameOutside(m, m1, if a == 0 then bp - 8 else bp - 4, if a == 0 then bp else bp + a - 4)
    requires SameOutside(m1, m2, if a == c then bp + c - 8 else bp + a - 4, if a == c then bp + c else bp + c - 4)
    requires Word(m1, bp - 4) == Tag(a, true) == Word(m1, bp + a - 8)
    ensures 0 < a ==> Word(m2, bp - 4) == Tag(a, true)
    ensures a < c ==> Word(m2, bp + a - 8) == Tag(a, true)
    ensures SameOutside(m, m2, bp - (if a == 0 then 8 else 4), bp + c - (if a == c then 0 else 4))
  {
    hide Word, SameOutside;
    var lo1, hi1 := if a == 0 then bp - 8 else bp - 4, if a == 0 then bp else bp + a - 4;
    var lo2, hi2 := if a == c then bp + c - 8 else bp + a - 4, if a == c then bp + c else bp + c - 4;
    if 0 < a { WordFrame(m1, m2, lo2, hi2, bp - 4); }
    if a < c { WordFrame(m1, m2, lo2, hi2, bp + a - 8); }
    SameTwice(m, m1, m2, lo1, hi1, lo2, hi2, bp - (if a == 0 then 8 else 4), bp + c - (if a == c then 0 else 4));
  }

  /** Taking `asize` bytes at the front of a free block encodes the list with that block in pieces. */
  lemma PlacedEncoded(m: seq<byte>, m': seq<byte>, left: seq<Block>, b: Block, right: seq<Block>, brk: int, w: Width, asize: nat)
    requires Encodes(m, left + [b] + right, brk) && |m| == |m'|
    requires 8 <= b.bp && 0 <= b.size && b.End() <= |m| && MIN_BLOCK <= asize <= b.size && asize % 8 == 0
    requires Placed(m', b.bp, w, b.size, asize) && SameOutside(m, m', b.bp - 4, b.End() - 4)
    ensures Encodes(m', left + Pieces(b, asize) + right, brk)
  {
    hide Word, SameOutside, Tiles, Minus, Stored;
    EncodedParts(m, left, b, right, brk);
    StoredWhole(asize);
    StoredRest(w, b.size, asize);
    PiecesTile(b, asize);
    assert AllTagged(m', Pieces(b, asize));
    Rebuild(m, m', left, Pieces(b, asize), right, b.bp, b.End(), brk);
  }

  // ---------------------------------------------------------------- growing, walking, payloads

  /** `mm_init`: padding word, prologue header and footer, epilogue header. */
  method InitTags(mem: array<byte>, p: int)
    requires p == 0 && FIRST_BP <= mem.Length <= INT_MAX
    modifies mem
    ensures Encodes(mem[..], [], FIRST_BP)
  {
    hide Word, SameOutside;
    Put(mem, p, 0);
    Put(mem, p + 4, Tag(8, true));
    ghost var m1 := mem[..];
    Put(mem, p + 8, Tag(8, true));
    ghost var m2 := mem[..];
    Put(mem, p + 12, Tag(0, true));
    WordFrame(m1, m2, 8, 12, 4);
    WordFrame(m2, mem[..], 12, 16, 4);
    WordFrame(m2, mem[..], 12, 16, 8);
  }

  /**
   What `extend_heap` has written once the break has moved from `brk` by `incr`.  If that is 0 no block
   is added: the epilogue loses its allocated bit and the last footer is cleared.
   */
  ghost predicate Grown(m: seq<byte>, m': seq<byte>, bs: seq<Block>, brk: int, incr: nat)
    requires FIRST_BP <= brk && brk + incr <= |m| == |m'|
  {
    var u := Opened(Heap(bs, brk), incr);
    if incr == 0 then
      && Word(m', brk - 8) == Tag(0, false) && Word(m', brk - 4) == Tag(0, false)
      && SameOutside(m, m', brk - 8, brk)
    else
      && u.End() == brk + incr
      && Tagged(m', u) && Word(m', u.End() - 4) == Tag(0, true)
      && SameOutside(m, m', u.bp - 4, u.End())
  }

  /** `extend_heap` once `mem_sbrk` has moved the break by the stored part of `size`, from tags to tags. */
  method Extend(mem: array<byte>, bp: int, size: nat, ghost bs: seq<Block>) returns (p: int)
    requires Encodes(mem[..], bs, bp) && size % 8 == 0 && bp + Stored(size) <= mem.Length
    modifies mem
    ensures p == Opened(Heap(bs, bp), Stored(size)).bp && Grown(old(mem[..]), mem[..], bs, bp, Stored(size))
  {
    hide Word, Get, GetSize, GetAlloc, SameOutside, Tiles;
    ghost var m, b, brk := mem[..], Block(bp, Stored(size), false), bp + Stored(size);
    ghost var prev := if b.size == 0 then b else PrevOf(bs);
    BlockBefore(m, bs, bp, bp);
    StoredAligned(size);
    PutTags(mem, bp, Stored(size), false);
    ghost var m1 := mem[..];
    Reads(mem, bp - 4, b.size, false);
    Put(mem, NextBlkp(mem, bp) - 4, Tag(0, true));
    ghost var m2 := mem[..];
    FreshTags(m, m1, m2, bs, b);
    p := CoalesceTags(mem, bp, prev, b, Block(brk, 0, true));
    if b.size == 0 {
      SameTwice(m, m2, mem[..], bp - 8, bp, bp - 8, bp, bp - 8, bp);
    } else {
      ghost var u := Union(bs, b, []);
      SameTwice(m, m2, mem[..], bp - 4, brk, u.bp - 4, brk - 4, u.bp - 4, brk);
      WordFrame(m2, mem[..], u.bp - 4, brk - 4, brk - 4);
    }
  }

  /** The three writes at the old break, and the tags `coalesce` then finds there. */
  lemma FreshTags(m: seq<byte>, m1: seq<byte>, m2: seq<byte>, bs: seq<Block>, b: Block)
    requires Encodes(m, bs, b.bp) && !b.alloc && 0 <= b.size && b.size % 8 == 0 && b.End() <= |m| == |m1| == |m2|
    requires SameOutside(m, m1, if b.size == 0 then b.bp - 8 else b.bp - 4, if b.size == 0 then b.bp else b.End() - 4)
    requires SameOutside(m1, m2, b.End() - 4, b.End())
    requires Word(m1, b.bp - 4) == Tag(b.size, false) == Word(m1, b.End() - 8) && Word(m2, b.End() - 4) == Tag(0, true)
    ensures b.size == 0 ==> Emptied(m2, b.bp) && SameOutside(m, m2, b.bp - 8, b.bp)
    ensures b.size > 0 ==> Beside(m2, PrevOf(bs), b, Block(b.End(), 0, true)) && SameOutside(m, m2, b.bp - 4, b.End())
  {
    hide Word, SameOutside, Tiles;
    BlockBefore(m, bs, b.bp, b.bp);
    WordFrame(m1, m2, b.End() - 4, b.End(), b.End() - 8);
    if b.size == 0 {
      SameTwice(m, m1, m2, b.bp - 8, b.bp, b.bp - 4, b.bp, b.bp - 8, b.bp);
    } else {
      SameTwice(m, m1, m2, b.bp - 4, b.End() - 4, b.End() - 4, b.End(), b.bp - 4, b.End());
      WordFrame(m1, m2, b.End() - 4, b.End(), b.bp - 4);
      WordFrame(m, m2, b.bp - 4, b.End(), b.bp - 8);
      WordFrame(m, m2, b.bp - 4, b.End(), PrevOf(bs).bp - 4);
    }
  }

  /** A free block over the old break and what was free below it, with a new epilogue behind it, extends the list. */
  lemma GrowEncoded(m: seq<byte>, m': seq<byte>, bs: seq<Block>, b: Block)
    requires Encodes(m, bs, b.bp) && b.size >= MIN_BLOCK && b.size % 8 == 0 && b.End() <= |m|
    requires var u := Union(bs, b, []);
      SameOutside(m, m', u.bp - 4, u.End()) && Tagged(m', u) && Word(m', u.End() - 4) == Tag(0, true)
    ensures Encodes(m', Merge(bs, b, []), b.End())
  {
    hide Word, Tiles, SameOutside;
    var u, left := Union(bs, b, []), KeptLeft(bs);
    TilesNone(b.End());
    UnionTiles(bs, b, [], FIRST_BP, b.End());
    TilesBounds(left, FIRST_BP, u.bp);
    OneBlockTiles(u);
    TilesConcat(left, [u], FIRST_BP, u.bp, u.End());
    assert Merge(bs, b, []) == left + [u];
    SameMore(m, m', u.bp - 4, u.End(), u.bp - 4, u.End());
    TagsFrame(m, m', u.bp, u.End() + 4, left, FIRST_BP, u.bp);
    WordFrame(m, m', u.bp - 4, u.End(), 4);
    WordFrame(m, m', u.bp - 4, u.End(), 8);
  }

  lemma TilesNone(to: int)
    ensures Tiles([], to, to)
  {}

  /** The header at the `k`-th stop of a walk: block `k`, or the epilogue. */
  lemma HeaderAt(mem: array<byte>, bs: seq<Block>, brk: int, k: nat)
    requires Encodes(mem[..], bs, brk) && k <= |bs|
    ensures FIRST_BP <= At(bs, k, brk) <= brk <= mem.Length
    ensures var bp := At(bs, k, brk);
      if k < |bs| then
        && GetSize(mem, bp - 4) == bs[k].size >= MIN_BLOCK && GetAlloc(mem, bp - 4) == bs[k].alloc
        && NextBlkp(mem, bp) == At(bs, k + 1, brk)
      else GetSize(mem, bp - 4) == 0 && GetAlloc(mem, bp - 4)
  {
    hide Word, Get, GetSize, GetAlloc, Tiles;
    TilesBounds(bs, FIRST_BP, brk);
    TilesSplit(bs, k, FIRST_BP, brk);
    if k < |bs| {
      assert Tagged(mem[..], bs[k]);
      Reads(mem, bs[k].bp - 4, bs[k].size, bs[k].alloc);
    } else {
      Reads(mem, brk - 4, 0, true);
    }
  }

  /** `PREV_BLKP` undoes `NEXT_BLKP` at every block. */
  lemma PrevUndoesNext(mem: array<byte>, bs: seq<Block>, brk: int, k: nat)
    requires Encodes(mem[..], bs, brk) && k < |bs|
    ensures FIRST_BP <= bs[k].bp && NextBlkp(mem, bs[k].bp) == bs[k].End() <= brk <= mem.Length
    ensures PrevBlkp(mem, NextBlkp(mem, bs[k].bp)) == bs[k].bp
  {
    hide Word, Get, GetSize, GetAlloc, Tiles;
    HeaderAt(mem, bs, brk, k);
    TilesBounds(bs, FIRST_BP, brk);
    TilesSplit(bs, k, FIRST_BP, brk);
    assert Tagged(mem[..], bs[k]);
    Reads(mem, bs[k].End() - 8, bs[k].size, bs[k].alloc);
  }

  /** What `checkblock` looks at: alignment, and header against footer. */
  lemma CheckAt(mem: array<byte>, bs: seq<Block>, brk: int, k: nat)
    requires Encodes(mem[..], bs, brk) && k < |bs|
    ensures bs[k].bp % 8 == 0 && FIRST_BP <= bs[k].bp && bs[k].End() <= brk
    ensures Ftrp(mem, bs[k].bp) == bs[k].End() - 8 && Get(mem, bs[k].bp - 4) == Get(mem, bs[k].End() - 8)
  {
    hide GetSize, GetAlloc, Tiles;
    TilesBounds(bs, FIRST_BP, brk);
    assert Tagged(mem[..], bs[k]);
    Reads(mem, bs[k].bp - 4, bs[k].size, bs[k].alloc);
  }

  /** The prologue header, and the step from the prologue to the first block. */
  lemma HeaderOfPrologue(mem: array<byte>, bs: seq<Block>, brk: int)
    requires Encodes(mem[..], bs, brk)
    ensures GetSize(mem, 4) == 8 && GetAlloc(mem, 4) && NextBlkp(mem, 8) == At(bs, 0, brk) == FIRST_BP
    ensures Ftrp(mem, 8) == 8 && Get(mem, 4) == Get(mem, 8)
  {
    Reads(mem, 4, 8, true);
  }

  /** The payload bytes of `b` are the same in both memories. */
  ghost predicate PayloadSame(m: seq<byte>, m': seq<byte>, b: Block) {
    |m| == |m'| && forall a :: b.bp <= a < b.PayloadEnd() && 0 <= a < |m| ==> m[a] == m'[a]
  }

  ghost predicate PayloadsKept(m: seq<byte>, m': seq<byte>, bs: set<Block>) {
    forall b :: b in bs ==> PayloadSame(m, m', b)
  }

  lemma KeptAll(m: seq<byte>, bs: set<Block>)
    ensures PayloadsKept(m, m, bs)
  {}

  lemma PayloadsTwice(m: seq<byte>, m1: seq<byte>, m2: seq<byte>, bs: set<Block>)
    requires PayloadsKept(m, m1, bs) && PayloadsKept(m1, m2, bs)
    ensures PayloadsKept(m, m2, bs)
  {
    forall b | b in bs ensures PayloadSame(m, m2, b) {
      assert PayloadSame(m, m1, b) && PayloadSame(m1, m2, b);
    }
  }

  /** Writing inside one stretch of a tiling leaves the payloads of the other blocks alone. */
  lemma PayloadsOutside(m: seq<byte>, m': seq<byte>, left: seq<Block>, right: seq<Block>, lo: int, hi: int, brk: int)
    requires SameOutside(m, m', lo - 4, hi)
    requires Tiles(left, FIRST_BP, lo) && Tiles(right, hi, brk)
    ensures PayloadsKept(m, m', Live(left) + Live(right))
  {
    hide Tiles;
    LiveInRange(left, FIRST_BP, lo);
    LiveInRange(right, hi, brk);
  }

  // ---------------------------------------------------------------- whole operations on the memory

  lemma PayloadsOfSides(m: seq<byte>, m': seq<byte>, left: seq<Block>, b: Block, right: seq<Block>, brk: int)
    requires Tiles(left, FIRST_BP, b.bp) && Tiles(right, b.End(), brk) && b.size >= MIN_BLOCK && b.size % 8 == 0
    requires Coalesced(left) && Coalesced(right)
    requires SameOutside(m, m', Union(left, b, right).bp - 4, Union(left, b, right).End())
    ensures PayloadsKept(m, m', Live(left) + Live(right))
  {
    hide Tiles, SameOutside;
    var u := Union(left, b, right);
    UnionTiles(left, b, right, FIRST_BP, brk);
    KeptSides(left, right);
    PayloadsOutside(m, m', KeptLeft(left), KeptRight(right), u.bp, u.End(), brk);
  }

  /** `extend_heap` seen from the list and from the blocks that were there before. */
  lemma Extended(m: seq<byte>, m': seq<byte>, bs: seq<Block>, b: Block)
    requires Encodes(m, bs, b.bp) && Coalesced(bs) && b.size >= MIN_BLOCK && b.size % 8 == 0 && b.End() <= |m| == |m'|
    requires !b.alloc && Grown(m, m', bs, b.bp, b.size)
    ensures Encodes(m', Merge(bs, b, []), b.End()) && Coalesced(Merge(bs, b, []))
    ensures PayloadsKept(m, m', Live(bs))
  {
    hide Word, Tiles, SameOutside, Coalesced, PayloadsKept;
    GrowEncoded(m, m', bs, b);
    assert Coalesced([]) by { CoalescedNone(); }
    MergeKeepsLive(bs, b, []);
    TilesNone(b.End());
    PayloadsOfSides(m, m', bs, b, [], b.End());
    assert Live(bs) + Live([]) == Live(bs);
  }

  lemma CoalescedNone()
    ensures Coalesced([])
  {}

  /** `mm_free`: clears the allocated bits of the block at `bp` and merges it. */
  method Release(mem: array<byte>, bp: int, ghost left: seq<Block>, ghost b: Block, ghost right: seq<Block>, ghost brk: int)
    returns (p: int)
    requires Encodes(mem[..], left + [b] + right, brk) && b.bp == bp && b.alloc && Coalesced(left) && Coalesced(right)
    modifies mem
    ensures Encodes(mem[..], Merge(left, b.(alloc := false), right), brk)
    ensures Coalesced(Merge(left, b.(alloc := false), right))
    ensures p == Union(left, b.(alloc := false), right).bp
    ensures PayloadsKept(old(mem[..]), mem[..], Live(left) + Live(right))
  {
    hide Word, Get, GetSize, GetAlloc, Tiles, SameOutside, Coalesced, PayloadsKept;
    ghost var m, f := mem[..], b.(alloc := false);
    ghost var u := Union(left, f, right);
    EncodedParts(m, left, b, right, brk);
    Reads(mem, bp - 4, b.size, b.alloc);
    var size := GetSize(mem, bp - 4);
    PutTags(mem, bp, size, false);
    ghost var m1 := mem[..];
    OneBlockTiles(f);
    Rebuild(m, m1, left, [f], right, f.bp, f.End(), brk);
    UnionTiles(left, f, right, FIRST_BP, brk);
    p := Coalesce(mem, bp, left, f, right, brk);
    MergeKeepsLive(left, f, right);
    SameMore(m, m1, f.bp - 4, f.End() - 4, u.bp - 4, u.End());
    SameTwice(m, m1, mem[..], u.bp - 4, u.End(), u.bp - 4, u.End() - 4, u.bp - 4, u.End());
    PayloadsOfSides(m, mem[..], left, f, right, brk);
  }

  /** `place` and `mark` seen from the list and from the other blocks. */
  lemma Occupied(m: seq<byte>, m': seq<byte>, bs: seq<Block>, i: nat, brk: int, w: Width, asize: nat)
    requires Encodes(m, bs, brk) && Coalesced(bs) && i < |bs| && !bs[i].alloc && |m| == |m'|
    requires 8 <= bs[i].bp && 0 <= bs[i].size && bs[i].End() <= |m| && MIN_BLOCK <= asize <= bs[i].size && asize % 8 == 0
    requires Placed(m', bs[i].bp, w, bs[i].size, asize) && SameOutside(m, m', bs[i].bp - 4, bs[i].End() - 4)
    ensures Encodes(m', Split(bs, i, asize), brk) && Coalesced(Split(bs, i, asize))
    ensures PayloadsKept(m, m', Live(bs))
  {
    hide Word, Tiles, SameOutside, Coalesced, PayloadsKept, Pieces, Placed;
    var left, b, right := bs[..i], bs[i], bs[i + 1..];
    Cut(bs, i, FIRST_BP, brk);
    PlacedEncoded(m, m', left, b, right, brk, w, asize);
    assert WellFormed(Heap(bs, brk));
    SplitKeeps(Heap(bs, brk), i, asize);
    SameMore(m, m', b.bp - 4, b.End() - 4, b.bp - 4, b.End());
    PayloadsOutside(m, m', left, right, b.bp, b.End(), brk);
    ThreeParts(left, [b], right);
    assert Live([b]) == {};
    assert Live(bs) == Live(left) + Live(right);
  }
}
