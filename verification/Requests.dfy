/**
 The size arithmetic shared by the two boundary-tag allocators: rounding a request up to a block
 size in `size_t`, the amount to grow by, and which requests that arithmetic does not distort.
 */
module Requests {
  import opened BlockList
  import opened Machine

  /** Block size for a request: header and footer added, rounded up to 8, in `size_t`. */
  function Adjust(w: Width, size: nat): nat {
    if size <= 8 then 16 else 8 * (((size + 15) % w.Modulus()) / 8)
  }

  function GrowBy(asize: nat): nat {
    if asize > CHUNKSIZE then asize else CHUNKSIZE
  }

  /** Bytes for `words` words rounded up to an even number of them. */
  function EvenWords(words: nat): nat {
    if words % 2 != 0 then (words + 1) * 4 else words * 4
  }

  lemma EvenWordsOf(n: nat)
    requires n % 8 == 0
    ensures EvenWords(n / 4) == n && (n >= MIN_BLOCK ==> n / 4 >= 4)
  {
    assert n / 4 == 2 * (n / 8);
  }

  lemma EvenWordsAligned(words: nat)
    ensures EvenWords(words) % 8 == 0 && (words >= 4 ==> EvenWords(words) >= MIN_BLOCK)
  {}

  /**
   The region is aligned, has room for prologue and epilogue, offsets in it fit an `int`, it ends
   before memory does, and so does the first chunk that `mm_init` asks for.
   */
  predicate Sane(sys: System) {
    && 0 < sys.base && sys.base % 8 == 0
    && FIRST_BP <= sys.limit <= INT_MAX
    && sys.base + sys.limit < sys.width.Modulus()
    && sys.base + FIRST_BP + CHUNKSIZE < sys.width.Modulus()
  }

  /** The rounding overflows. */
  predicate Wraps(w: Width, size: nat) { size + 15 >= w.Modulus() }

  /** The `int` handed to `mem_sbrk` when no free block fits. */
  function Increment(w: Width, size: nat): int { ToInt32(GrowBy(Adjust(w, size))) }

  /**
   The requests the allocators treat as asked, given the block `i` that the search finds (the number
   of blocks: none).  A block is handed out only if the rounding did not wrap; without one, `mem_sbrk`
   refuses, or it is asked for the right amount and the address sum does not wrap.
   */
  predicate Honest(h: Heap, sys: System, size: nat, i: nat) {
    if i < |h.blocks| then !Wraps(sys.width, size)
    else
      || !SbrkAccepts(sys, h.brk, Increment(sys.width, size))
      || (&& !Wraps(sys.width, size)
          && GrowBy(Adjust(sys.width, size)) <= INT_MAX
          && !Strays(sys, h.brk, Increment(sys.width, size)))
  }

  /** No block is found and the break is moved past the end of memory. */
  predicate GoesAstray(h: Heap, sys: System, size: nat, i: nat) {
    i >= |h.blocks| && Strays(sys, h.brk, Increment(sys.width, size))
  }

  /**
   Whether the tags still describe a list of blocks after a misled request that did not go astray: a
   block of 16 bytes given away whole, or a free last block that took up at least 16 bytes more.
   */
  predicate Survives(h: Heap, w: Width, size: nat, i: nat) {
    if Wraps(w, size) then Adjust(w, size) == 8 && i < |h.blocks| && h.blocks[i].size == MIN_BLOCK
    else LastFree(h.blocks) && Increment(w, size) >= MIN_BLOCK
  }

  lemma AdjustRoom(w: Width, size: nat)
    requires !Wraps(w, size)
    ensures size <= Adjust(w, size) - 8 && Adjust(w, size) >= MIN_BLOCK && Adjust(w, size) % 8 == 0
    ensures if size > 8 then Adjust(w, size) < size + 16 else Adjust(w, size) == MIN_BLOCK
    ensures Adjust(w, size) < w.Modulus()
  {}

  /** When the rounding wraps the block asked for has no payload at all. */
  lemma AdjustWrapped(w: Width, size: nat)
    requires Wraps(w, size) && size < w.Modulus()
    ensures Adjust(w, size) == (if size + 7 < w.Modulus() then 0 else 8)
    ensures Increment(w, size) == CHUNKSIZE
  {
    hide ToInt32;
    assert (size + 15) % w.Modulus() == size + 15 - w.Modulus();
    SmallAmount(CHUNKSIZE);
  }

  lemma AdjustAligned(w: Width, size: nat)
    ensures Adjust(w, size) % 8 == 0 && Adjust(w, size) < w.Modulus()
  {
    var x := (size + 15) % w.Modulus();
    assert 8 * (x / 8) <= x;
  }

  lemma ToInt32Aligned(n: nat)
    requires n % 8 == 0
    ensures ToInt32(n) % 8 == 0
  {
    assert n % TWO32 % 8 == 0;
  }

  lemma IncrementAligned(w: Width, size: nat)
    ensures Adjust(w, size) % 8 == 0 && GrowBy(Adjust(w, size)) % 8 == 0 && Increment(w, size) % 8 == 0
    ensures GrowBy(Adjust(w, size)) < w.Modulus()
  {
    hide Adjust, ToInt32;
    AdjustAligned(w, size);
    ToInt32Aligned(GrowBy(Adjust(w, size)));
  }

  lemma SmallAmount(n: nat)
    requires n <= INT_MAX
    ensures ToInt32(n) == n
  {}

  /**
   With a 32-bit `size_t` and no wrap in the rounding, what misleads is the address sum alone: an
   amount that does not fit an `int` is negative as one, and refused.
   */
  lemma Mislead32Exactly(h: Heap, sys: System, size: nat, i: nat)
    requires Sane(sys) && 0 <= h.brk <= sys.limit && sys.width == Bits32 && size < TWO32 && !Wraps(Bits32, size)
    ensures Honest(h, sys, size, i) <==> !GoesAstray(h, sys, size, i)
  {
    AdjustRoom(Bits32, size);
    AcceptsExactly(sys, h.brk, Increment(Bits32, size));
  }

  /** An honest request does not go astray. */
  lemma HonestStays(h: Heap, sys: System, size: nat, i: nat)
    requires Sane(sys) && 0 <= h.brk <= sys.limit && Honest(h, sys, size, i)
    ensures !GoesAstray(h, sys, size, i)
  {
    AcceptsExactly(sys, h.brk, Increment(sys.width, size));
  }

  /** Honest growth is accepted exactly when it really fits below the heap limit. */
  lemma HonestGrowth(h: Heap, sys: System, size: nat)
    requires Sane(sys) && 0 <= h.brk <= sys.limit && Honest(h, sys, size, |h.blocks|) && !Wraps(sys.width, size)
    ensures var g := GrowBy(Adjust(sys.width, size));
      && (SbrkAccepts(sys, h.brk, ToInt32(g)) <==> h.brk + g <= sys.limit)
      && (h.brk + g <= sys.limit ==> ToInt32(g) == g)
  {
    AcceptsExactly(sys, h.brk, Increment(sys.width, size));
  }

  /** Facts about an amount that does not fit an `int`, is accepted all the same, and does not go astray. */
  lemma MisledGrowth(h: Heap, sys: System, size: nat)
    requires Sane(sys) && 0 <= h.brk <= sys.limit && size < sys.width.Modulus()
    requires !Honest(h, sys, size, |h.blocks|) && !Wraps(sys.width, size) && !GoesAstray(h, sys, size, |h.blocks|)
    ensures var asize := Adjust(sys.width, size);
      && GrowBy(asize) == asize && INT_MAX < asize < sys.width.Modulus() && asize % 8 == 0
      && Increment(sys.width, size) == asize % TWO32 && h.brk + asize % TWO32 <= sys.limit
      && sys.width.Modulus() - asize >= MIN_BLOCK
  {
    AdjustRoom(sys.width, size);
    AcceptsExactly(sys, h.brk, Increment(sys.width, size));
    var asize := Adjust(sys.width, size);
    assert asize % TWO32 <= INT_MAX;
    assert sys.width == Bits64;
    assert asize / TWO32 < TWO32;
  }
}
