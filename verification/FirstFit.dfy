/**
 The first-fit allocator as it runs: one byte memory, the break, and `heap_listp`, all updated in
 place.  Each method is proved against the function of the same name in `FirstFitModel`.
 */
module FirstFit {
  import opened BlockList
  import opened Machine
  import opened Requests
  import opened Serving
  import opened TagMemory
  import opened Overruns
  import Model = FirstFitModel

  class Allocator {
    const mem: array<byte>
    const width: Width
    const base: int
    var brk: int
    var heapListp: int
    ghost var blocks: seq<Block>

    ghost function State(): Heap
      reads this
    {
      Heap(blocks, brk)
    }

    function Sys(): System { System(width, base, mem.Length) }

    ghost predicate Valid()
      reads this, mem
    {
      && Sane(Sys())
      && if brk == 0 then heapListp == 0 && blocks == [] else Initialised()
    }

    ghost predicate Initialised()
      reads this, mem
    {
      heapListp == 8 && Encodes(mem[..], blocks, brk) && Coalesced(blocks)
    }

    lemma ValidOk()
      requires Valid()
      ensures Model.Ok(State(), Sys())
      ensures forall p :: Model.Owns(State(), p) ==> brk != 0
    {}

    /** `mem_init`, before the first call to the allocator. */
    constructor (sys: System)
      requires Sane(sys)
      ensures Valid() && fresh(mem) && Sys() == sys && State() == Heap([], 0)
    {
      mem := new byte[sys.limit](_ => 0);
      width, base := sys.width, sys.base;
      brk, heapListp, blocks := 0, 0, [];
    }

    method ExtendHeap(words: nat) returns (bp: int)
      requires brk != 0 && Valid() && words >= 4 && EvenWords(words) < width.Modulus()
      requires !Strays(Sys(), brk, ToInt32(EvenWords(words)))
      modifies this`brk, this`blocks, mem
      ensures var h, size, incr := old(State()), EvenWords(words), ToInt32(EvenWords(words));
        if SbrkAccepts(Sys(), old(brk), incr) then
          && brk == old(brk) + incr
          && bp == Opened(h, incr).bp
          && FIRST_BP <= old(brk) && 0 <= incr && brk <= mem.Length && Grown(old(mem[..]), mem[..], old(blocks), old(brk), incr)
          && (size <= INT_MAX ==> Valid() && State() == Grow(h, size) && PayloadsKept(old(mem[..]), mem[..], Live(old(blocks))))
        else
          bp == 0 && State() == old(State()) && mem[..] == old(mem[..]) && Valid()
    {
      hide Encodes, Coalesced, PayloadsKept, Merge, Union, Grown, ToInt32, Address, Opened;
      EvenWordsAligned(words);
      var size := if words % 2 != 0 then (words + 1) * 4 else words * 4;
      ghost var h := Heap(blocks, brk);
      bp, brk := GrowHeap(mem, Sys(), brk, size, blocks);
      if bp == 0 { return; }
      if size <= INT_MAX { blocks := Grow(h, size).blocks; }
    }

    /** `mm_init` on an empty region of any size, fresh or after `mem_reset_brk`. */
    method Init() returns (r: int)
      requires brk == 0 && mem.Length <= INT_MAX && 0 < base && base % 8 == 0
      requires base + mem.Length < width.Modulus() && base + FIRST_BP + CHUNKSIZE < width.Modulus()
      modifies this`brk, this`blocks, this`heapListp, mem
      ensures FIRST_BP <= mem.Length ==> Valid() && brk != 0 && State() == Model.Init(mem.Length)
      ensures mem.Length < FIRST_BP ==> brk == 0 && heapListp == -1 && mem[..] == old(mem[..])
      ensures r == if FIRST_BP + CHUNKSIZE <= mem.Length then 0 else -1
    {
      hide Word, Tiles;
      heapListp, brk := Sbrk(Sys(), brk, 4 * 4);
      if heapListp == -1 { return -1; }
      InitTags(mem, heapListp);
      blocks := [];
      heapListp := heapListp + 2 * 4;
      AcceptsExactly(Sys(), FIRST_BP, CHUNKSIZE);
      OpenedAt(Heap([], FIRST_BP), CHUNKSIZE);
      var bp := ExtendHeap(CHUNKSIZE / 4);
      return if bp == 0 then -1 else 0;
    }

    /** `find_fit`: the lowest free block that fits, or NULL. */
    method FindFit(asize: int) returns (bp: int)
      requires brk != 0 && Valid()
      ensures var i := Model.FirstFit(blocks, asize); bp == if i < |blocks| then blocks[i].bp else 0
    {
      hide Get, GetSize, GetAlloc, Encodes;
      bp := heapListp;
      HeaderOfPrologue(mem, blocks, brk);
      HeaderAt(mem, blocks, brk, 0);
      ghost var k := -1;
      while GetSize(mem, bp - 4) > 0
        invariant -1 <= k <= |blocks| && FIRST_BP <= brk <= mem.Length
        invariant bp == if k == -1 then 8 else At(blocks, k, brk)
        invariant 4 <= bp <= mem.Length
        invariant forall j :: 0 <= j < k ==> blocks[j].alloc || blocks[j].size < asize
        decreases |blocks| - k
      {
        if k >= 0 { HeaderAt(mem, blocks, brk, k); }
        if !GetAlloc(mem, bp - 4) && asize <= GetSize(mem, bp - 4) {
          return bp;
        }
        bp := NextBlkp(mem, bp);
        k := k + 1;
        HeaderAt(mem, blocks, brk, k);
      }
      HeaderAt(mem, blocks, brk, k);
      return 0;
    }
  
    /**
     `mm_malloc`, for every size but those that go astray.  Every payload is kept.  The pointer is the
     model's; a request treated as asked leaves the model's heap; any other gets a pointer whose bytes run
     past the region, and the tags then describe a heap exactly in the cases of `Survives`.
     */
    method Malloc(size: nat) returns (bp: int)
      requires Valid() && size < width.Modulus()
      requires size == 0
        || var h := Model.Ready(State(), Sys()); !GoesAstray(h, Sys(), size, Model.FoundFor(h, Sys(), size))
      modifies this`brk, this`blocks, this`heapListp, mem
      ensures bp == Model.Malloc(old(State()), Sys(), size).ptr && brk == Model.BreakAfter(old(State()), Sys(), size)
      ensures PayloadsKept(old(mem[..]), mem[..], Live(old(blocks)))
      ensures var r := Model.Malloc(old(State()), Sys(), size);
        r.Reply? ==> Valid() && brk != 0 && State() == r.heap && (bp == 0 && old(brk) != 0 ==> mem[..] == old(mem[..]))
      ensures var h := Model.Ready(old(State()), Sys());
        && ((bp == 0 || bp + size <= mem.Length) && brk <= mem.Length <==> Model.AsAsked(h, Sys(), size))
        && (!Model.AsAsked(h, Sys(), size) ==> Misused(mem[..], brk, h, Sys(), size, Model.FoundFor(h, Sys(), size)))
    {
      hide Encodes, Coalesced, Model.Init, Pointer, Served, Honest, Break, Misused, Model.FoundFor, GoesAstray;
      ghost var h0, m := State(), mem[..];
      ValidOk();
      Model.ReadyOk(h0, Sys());
      Model.HonestExactly(h0, Sys(), size);
      KeptAll(m, Live(blocks));
      if heapListp == 0 {
        NoneLive(m, mem[..]);
        var _ := Init();
        NoneLive(m, mem[..]);
      }
      if size == 0 {
        ZeroStays(State(), Sys());
        return 0;
      }
      bp := MallocReady(size);
      if h0.brk == 0 { NoneLive(m, mem[..]); }
    }

    /** `mm_malloc` from its size computation on. */
    method MallocReady(size: nat) returns (bp: int)
      requires brk != 0 && Valid() && 0 < size < width.Modulus()
      requires !GoesAstray(State(), Sys(), size, Model.FoundFor(State(), Sys(), size))
      modifies this`brk, this`blocks, mem
      ensures var h := old(State()); var i := Model.FoundFor(h, Sys(), size);
        && bp == Pointer(h, Sys(), size, i) && brk == Break(h, Sys(), size, i)
        && PayloadsKept(old(mem[..]), mem[..], Live(old(blocks)))
        && (Honest(h, Sys(), size, i) ==>
              Valid() && brk != 0 && State() == Served(h, Sys(), size, i) && (bp == 0 ==> mem[..] == old(mem[..])))
        && (!Honest(h, Sys(), size, i) ==> Misused(mem[..], brk, h, Sys(), size, i))
    {
      hide Coalesced, PayloadsKept, Split, Merge, Tiles, AllTagged, Word, KeptLeft, Grown, Union, Opened;
      hide Adjust, EvenWords, ToInt32, Served, Address, Honest;
      var asize := Adjust(width, size);
      ghost var m, h, i := mem[..], State(), Model.FoundFor(State(), Sys(), size);
      TilesBounds(blocks, FIRST_BP, brk);
      IncrementAligned(width, size);
      EvenWordsOf(GrowBy(asize));
      Model.FitSearched(h, Sys(), size);
      AcceptsExactly(Sys(), brk, Increment(width, size));
      bp := FindFit(asize);
      if bp != 0 {
        PlaceFound(mem, bp, asize, width, h, Sys(), size, i);
      } else {
        var extendsize := GrowBy(asize);
        if Increment(width, size) >= 0 { OpenedAt(h, Increment(width, size)); }
        bp := ExtendHeap(extendsize / 4);
        if bp == 0 {
          KeptAll(m, Live(blocks));
          Refused(h, Sys(), size, i);
          return;
        }
        if extendsize <= INT_MAX { SmallAmount(extendsize); }
        PlaceLast(mem, bp, asize, width, m, h, Sys(), size);
      }
      if Honest(h, Sys(), size, i) {
        ServedBreak(h, Sys(), size, i);
        blocks := Served(h, Sys(), size, i).blocks;
      }
    }

    method Free(bp: int)
      requires Valid() && (bp == 0 || Model.Owns(State(), bp))
      modifies this`blocks, mem
      ensures Valid() && State() == Model.Free(old(State()), bp)
      ensures PayloadsKept(old(mem[..]), mem[..], set b | b in Live(old(blocks)) && b.bp != bp)
    {
      hide Coalesced, PayloadsKept, Merge, Tiles, AllTagged, Word, KeptLeft, Union;
      if bp == 0 {
        KeptAll(mem[..], set b | b in Live(blocks) && b.bp != bp);
        return;
      }
      ghost var m, i := mem[..], IndexOf(blocks, bp);
      Located(State(), bp);
      ghost var left, b, right := blocks[..i], blocks[i], blocks[i + 1..];
      var _ := Release(mem, bp, left, b, right, brk);
      blocks := FreeAt(blocks, i);
    }

    /** `memcpy` between two stretches of the heap that do not overlap. */
    method Memcpy(dst: int, src: int, n: nat)
      requires 0 <= dst && dst + n <= mem.Length && 0 <= src && src + n <= mem.Length
      requires Model.Disjoint(dst, n, src, n)
      modifies mem
      ensures mem[dst..dst + n] == old(mem[src..src + n])
      ensures SameOutside(old(mem[..]), mem[..], dst, dst + n)
    {
      for i := 0 to n
        invariant forall a :: dst <= a < dst + i ==> mem[a] == old(mem[a - dst + src])
        invariant forall a :: 0 <= a < mem.Length && !(dst <= a < dst + i) ==> mem[a] == old(mem[a])
      {
        mem[dst + i] := mem[src + i];
      }
    }

    /** A client copies bytes into its own payload `nb`, from anywhere else. */
    method CopyInto(dst: int, src: int, n: nat, ghost nb: Block)
      requires brk != 0 && Valid() && nb in Live(blocks) && dst == nb.bp && n <= nb.size - 8
      requires 0 <= src && src + n <= mem.Length && Model.Disjoint(dst, n, src, n)
      modifies mem
      ensures Valid()
      ensures 0 <= dst && dst + n <= mem.Length && mem[dst..dst + n] == old(mem[src..src + n])
      ensures PayloadsKept(old(mem[..]), mem[..], Live(blocks) - {nb})
    {
      hide Word, Tiles, Coalesced, AllTagged;
      ghost var m := mem[..];
      Model.LiveInside(State(), nb);
      Memcpy(dst, src, n);
      SameMore(m, mem[..], dst, dst + n, nb.bp, nb.PayloadEnd());
      PayloadWritten(m, mem[..], State(), nb);
    }

    method Realloc(ptr: int, size: nat) returns (p: int)
      requires Valid() && (ptr == 0 || Model.Owns(State(), ptr)) && size < width.Modulus()
      requires Model.AsAsked(Model.Ready(State(), Sys()), Sys(), size)
      modifies this`brk, this`blocks, this`heapListp, mem
      ensures Valid()
      ensures State() == Model.Realloc(old(State()), Sys(), ptr, size).heap
      ensures p == Model.Realloc(old(State()), Sys(), ptr, size).ptr
      ensures p == 0 && ptr != 0 && size != 0 ==> State() == old(State()) && mem[..] == old(mem[..])
      ensures p != 0 && ptr != 0 ==>
        var n := Min(size, PayloadSize(old(blocks), ptr));
        && 0 <= p <= p + n <= mem.Length && 0 <= ptr <= ptr + n <= mem.Length
        && mem[p..p + n] == old(mem[ptr..ptr + n])
      ensures PayloadsKept(old(mem[..]), mem[..], set b | b in Live(old(blocks)) && b.bp != ptr)
    {
      hide Model.Malloc, Model.Free, PayloadsKept, Encodes, Coalesced, Model.Owns, BlockAt, PayloadSize;
      hide Model.Init, IndexOf, Adjust;
      ghost var m, h := mem[..], State();
      ghost var others := set b | b in Live(blocks) && b.bp != ptr;
      if size == 0 {
        Free(ptr);
        return 0;
      }
      ghost var r := Model.Malloc(h, Sys(), size);
      ValidOk();
      Model.ReplyExactly(h, Sys(), size);
      AskedStays(h, Sys(), size);
      p := Malloc(size);
      KeptSome(m, mem[..], Live(h.blocks), others);
      if ptr == 0 || p == 0 {
        if h.brk != 0 { NullChangesNothing(h, Sys(), size); }
        return;
      }
      ghost var m1 := mem[..];
      ghost var b, nb := MovesTo(h, Sys(), size, ptr);
      Move(ptr, p, size, b, nb);
      Carried(m, m1, b, Live(h.blocks), Min(size, b.size - 8));
      KeptSome(m1, mem[..], Live(r.heap.blocks) - {b, nb}, others);
      PayloadsTwice(m, m1, mem[..], others);
    }

    /** `mm_realloc` once the new block is there: copy, then free the old block. */
    method Move(ptr: int, p: int, size: nat, ghost b: Block, ghost nb: Block)
      requires brk != 0 && Valid() && b in Live(blocks) && nb in Live(blocks) && b != nb
      requires b.bp == ptr && nb.bp == p && size <= nb.size - 8
      modifies this`blocks, mem
      ensures Valid() && State() == Model.Free(old(State()), ptr)
      ensures var n := Min(size, b.size - 8);
        && 0 <= p <= p + n <= mem.Length && 0 <= ptr <= ptr + n <= mem.Length
        && mem[p..p + n] == old(mem[ptr..ptr + n])
      ensures PayloadsKept(old(mem[..]), mem[..], Live(old(blocks)) - {b, nb})
    {
      hide Model.Free, PayloadsKept, Encodes, GetSize, Get, Coalesced, Tiles;
      ghost var m, h := mem[..], State();
      Apart(m, h, b, nb);
      HeaderOf(mem, h, b);
      var oldsize := GetSize(mem, ptr - 4);
      if size < oldsize { oldsize := size; }
      CopyInto(p, ptr, oldsize, nb);
      ghost var m2, n := mem[..], Min(size, b.size - 8);
      ghost var rest := set c | c in Live(blocks) && c.bp != ptr;
      Free(ptr);
      Carried(m2, mem[..], nb, rest, n);
      Prefix(m, m2, ptr, p, oldsize, n);
      KeptThrough(m, m2, mem[..], Live(h.blocks), b, nb);
    }

    /** `checkheap`: the number of complaints it would print. */
    method CheckHeap() returns (errors: int)
      requires brk != 0 && Valid()
      ensures errors == 0
    {
      hide Get, GetSize, GetAlloc, Encodes;
      errors := 0;
      HeaderOfPrologue(mem, blocks, brk);
      HeaderAt(mem, blocks, brk, 0);
      if GetSize(mem, heapListp - 4) != 8 || !GetAlloc(mem, heapListp - 4) { errors := errors + 1; }
      if heapListp % 8 != 0 { errors := errors + 1; }
      if Get(mem, heapListp - 4) != Get(mem, Ftrp(mem, heapListp)) { errors := errors + 1; }
      var bp := heapListp;
      ghost var k := -1;
      while GetSize(mem, bp - 4) > 0
        invariant -1 <= k <= |blocks| && FIRST_BP <= brk <= mem.Length
        invariant bp == if k == -1 then 8 else At(blocks, k, brk)
        invariant 4 <= bp <= mem.Length
        invariant errors == 0
        decreases |blocks| - k
      {
        if k >= 0 { HeaderAt(mem, blocks, brk, k); }
        if 0 <= k < |blocks| { CheckAt(mem, blocks, brk, k); }
        if bp % 8 != 0 { errors := errors + 1; }
        if Get(mem, bp - 4) != Get(mem, Ftrp(mem, bp)) { errors := errors + 1; }
        bp := NextBlkp(mem, bp);
        k := k + 1;
        HeaderAt(mem, blocks, brk, k);
      }
      HeaderAt(mem, blocks, brk, k);
      if GetSize(mem, bp - 4) != 0 || !GetAlloc(mem, bp - 4) { errors := errors + 1; }
    }

    /** Any run of calls on live pointers, and then `checkheap`. */
    method RunCalls(calls: seq<Model.Call>, ghost client: Model.Client) returns (errors: int)
      requires Valid() && client.heap == State() && Model.Inv(client, Sys())
      requires Model.LegalRun(client, Sys(), calls)
      modifies this`brk, this`blocks, this`heapListp, mem
      ensures Valid() && State() == Model.Run(client, Sys(), calls).heap
      ensures errors == 0
    {
      hide Encodes, Coalesced, Model.Malloc, Model.Free, Model.Inv, PayloadsKept;
      ghost var now := client;
      for i := 0 to |calls|
        invariant Valid() && now.heap == State() && Model.Inv(now, Sys())
        invariant Model.LegalRun(now, Sys(), calls[i..])
        invariant Model.Run(now, Sys(), calls[i..]) == Model.Run(client, Sys(), calls)
      {
        assert calls[i..][0] == calls[i] && calls[i..][1..] == calls[i + 1..];
        Model.StepKeeps(now, Sys(), calls[i]);
        OneCall(calls[i], now);
        now := Model.Step(now, Sys(), calls[i]);
      }
      assert calls[|calls|..] == [];
      if brk == 0 { return 0; }
      errors := CheckHeap();
    }

    /** One call of a run. */
    method OneCall(call: Model.Call, ghost client: Model.Client)
      requires Valid() && client.heap == State() && Model.Inv(client, Sys())
      requires Model.Legal(client, Sys(), call)
      modifies this`brk, this`blocks, this`heapListp, mem
      ensures Valid() && State() == Model.Step(client, Sys(), call).heap
    {
      hide Encodes, Coalesced, Model.Malloc, Model.Free, PayloadsKept, Model.Init, Adjust, ToInt32;
      match call
      case CallMalloc(size) =>
        Model.ReplyExactly(client.heap, Sys(), size);
        AskedStays(client.heap, Sys(), size);
        var _ := Malloc(size);
      case CallFree(p) =>
        Free(p);
      case CallRealloc(p, size) =>
        ReallocIsStep(client, Sys(), p, size);
        var _ := Realloc(p, size);
    }
  }

  lemma ReallocIsStep(c: Model.Client, sys: System, p: int, size: nat)
    requires Model.LegalSize(c, sys, size)
    ensures Model.Realloc(c.heap, sys, p, size).Reply?
    ensures Model.Realloc(c.heap, sys, p, size).heap == Model.Step(c, sys, Model.CallRealloc(p, size)).heap
  {}

  function PayloadSize(bs: seq<Block>, p: int): int {
    var i := IndexOf(bs, p);
    if i < |bs| then bs[i].size - 8 else 0
  }

  /** Writing into the payload of one block keeps the tags and every other payload. */
  lemma PayloadWritten(m: seq<byte>, m': seq<byte>, h: Heap, b: Block)
    requires Encodes(m, h.blocks, h.brk) && Coalesced(h.blocks) && b in Live(h.blocks)
    requires SameOutside(m, m', b.bp, b.PayloadEnd())
    ensures Encodes(m', h.blocks, h.brk) && PayloadsKept(m, m', Live(h.blocks) - {b})
  {
    hide Word, Tiles, Coalesced, SameOutside;
    var i :| 0 <= i < |h.blocks| && h.blocks[i] == b;
    var left, right := h.blocks[..i], h.blocks[i + 1..];
    Cut(h.blocks, i, FIRST_BP, h.brk);
    EncodedParts(m, left, b, right, h.brk);
    SameMore(m, m', b.bp, b.PayloadEnd(), b.bp - 4, b.End() - 4);
    WordFrame(m, m', b.bp, b.PayloadEnd(), b.bp - 4);
    WordFrame(m, m', b.bp, b.PayloadEnd(), b.End() - 8);
    OneBlockTiles(b);
    Rebuild(m, m', left, [b], right, b.bp, b.End(), h.brk);
    SameMore(m, m', b.bp, b.PayloadEnd(), b.bp - 4, b.End());
    PayloadsOutside(m, m', left, right, b.bp, b.End(), h.brk);
    ThreeParts(left, [b], right);
    assert Live([b]) == {b};
  }

  lemma KeptSome(m: seq<byte>, m': seq<byte>, bs: set<Block>, some: set<Block>)
    requires PayloadsKept(m, m', bs) && some <= bs
    ensures PayloadsKept(m, m', some)
  {}

  /** One payload written, then one block freed: the others are kept. */
  lemma KeptThrough(m: seq<byte>, m1: seq<byte>, m2: seq<byte>, live: set<Block>, freed: Block, written: Block)
    requires PayloadsKept(m, m1, live - {written}) && PayloadsKept(m1, m2, live - {freed})
    ensures PayloadsKept(m, m2, live - {freed, written})
  {
    KeptSome(m, m1, live - {written}, live - {freed, written});
    KeptSome(m1, m2, live - {freed}, live - {freed, written});
    PayloadsTwice(m, m1, m2, live - {freed, written});
  }

  /** Two live blocks: where they lie, and that only one of them has `b`'s pointer. */
  lemma Apart(m: seq<byte>, h: Heap, b: Block, nb: Block)
    requires Encodes(m, h.blocks, h.brk) && Coalesced(h.blocks)
    requires b in Live(h.blocks) && nb in Live(h.blocks) && b != nb
    ensures FIRST_BP <= b.bp && b.End() <= |m| && FIRST_BP <= nb.bp && nb.End() <= |m| && b.size >= 8 && nb.size >= 8
    ensures Model.Disjoint(b.bp, b.size, nb.bp, nb.size) && Model.Owns(h, b.bp)
    ensures (set c | c in Live(h.blocks) && c.bp != b.bp) == Live(h.blocks) - {b}
  {
    assert WellFormed(h);
    Model.LiveInside(h, b);
    Model.LiveInside(h, nb);
    Model.LiveApart(h, b, nb);
    forall c | c in Live(h.blocks) && c != b ensures c.bp != b.bp { Model.LiveApart(h, b, c); }
  }

  lemma Prefix(m: seq<byte>, m': seq<byte>, src: nat, dst: nat, len: nat, n: nat)
    requires n <= len && src + len <= |m| && dst + len <= |m'| && m'[dst..dst + len] == m[src..src + len]
    ensures m'[dst..dst + n] == m[src..src + n]
  {
    assert m'[dst..dst + len][..n] == m'[dst..dst + n];
    assert m[src..src + len][..n] == m[src..src + n];
  }

  /** One payload out of those kept. */
  lemma Carried(m: seq<byte>, m': seq<byte>, b: Block, bs: set<Block>, n: nat)
    requires PayloadsKept(m, m', bs) && b in bs && 0 <= b.bp && b.bp + n <= |m| && n <= b.size - 8
    ensures |m| == |m'| && m'[b.bp..b.bp + n] == m[b.bp..b.bp + n]
  {
    assert PayloadSame(m, m', b);
  }

  lemma HeaderOf(mem: array<byte>, h: Heap, b: Block)
    requires Encodes(mem[..], h.blocks, h.brk) && b in h.blocks && FIRST_BP <= b.bp <= mem.Length
    ensures GetSize(mem, b.bp - 4) == b.size
  {
    var i :| 0 <= i < |h.blocks| && h.blocks[i] == b;
    HeaderAt(mem, h.blocks, h.brk, i);
  }

  lemma NullChangesNothing(h: Heap, sys: System, size: nat)
    requires Model.Ok(h, sys) && size < sys.width.Modulus() && h.brk != 0 && Model.Malloc(h, sys, size).Reply?
    ensures Model.Malloc(h, sys, size).ptr == 0 ==> Model.Malloc(h, sys, size).heap == h
  {
    Model.MallocAllocates(h, sys, size);
  }

  /** The block a pointer has before, and the block it moves to, when `mm_malloc` succeeds in `mm_realloc`. */
  lemma MovesTo(h: Heap, sys: System, size: nat, ptr: int) returns (b: Block, nb: Block)
    requires Model.Ok(h, sys) && h.brk != 0 && Model.Owns(h, ptr) && size < sys.width.Modulus()
    requires Model.Malloc(h, sys, size).Reply? && Model.Malloc(h, sys, size).ptr != 0
    ensures var r := Model.Malloc(h, sys, size);
      && b in Live(h.blocks) && b.bp == ptr && PayloadSize(h.blocks, ptr) == b.size - 8
      && b in Live(r.heap.blocks) && nb in Live(r.heap.blocks) && b != nb
      && nb.bp == r.ptr && size <= nb.size - 8
      && (set c | c in Live(h.blocks) && c.bp != ptr) <= Live(r.heap.blocks) - {b, nb}
  {
    hide Model.Malloc, BlockAt, IndexOf;
    var r := Model.Malloc(h, sys, size);
    Model.MallocAllocates(h, sys, size);
    b :| b in Live(h.blocks) && b.bp == ptr;
    nb := BlockAt(r.heap, r.ptr);
    PointerFinds(h, b);
  }

  lemma NoneLive(m: seq<byte>, m': seq<byte>)
    ensures PayloadsKept(m, m', Live([]))
  {}

  lemma ZeroStays(h: Heap, sys: System)
    ensures var i := Model.FoundFor(h, sys, 0);
      Break(h, sys, 0, i) == h.brk && Pointer(h, sys, 0, i) == 0 && Served(h, sys, 0, i) == h
  {}

  /** A request treated as asked does not go astray. */
  lemma AskedStays(h: Heap, sys: System, size: nat)
    requires Model.Ok(h, sys) && Model.AsAsked(Model.Ready(h, sys), sys, size)
    ensures var h1 := Model.Ready(h, sys); size == 0 || !GoesAstray(h1, sys, size, Model.FoundFor(h1, sys, size))
  {
    hide Honest, GoesAstray;
    Model.ReadyOk(h, sys);
    var h1 := Model.Ready(h, sys);
    if size > 0 { HonestStays(h1, sys, size, Model.FoundFor(h1, sys, size)); }
  }

  /** The pointer of a live block, and the blocks on either side of it. */
  lemma Located(h: Heap, p: int)
    requires WellFormed(h) && Model.Owns(h, p)
    ensures var i := IndexOf(h.blocks, p);
      && i < |h.blocks| && h.blocks[i].bp == p && h.blocks[i].alloc
      && h.blocks == h.blocks[..i] + [h.blocks[i]] + h.blocks[i + 1..]
      && Coalesced(h.blocks[..i]) && Coalesced(h.blocks[i + 1..])
      && (set b | b in Live(h.blocks) && b.bp != p) == Live(h.blocks[..i]) + Live(h.blocks[i + 1..])
  {
    var b :| b in Live(h.blocks) && b.bp == p;
    PointerFinds(h, b);
    var i := IndexOf(h.blocks, p);
    Cut(h.blocks, i, FIRST_BP, h.brk);
    ThreeParts(h.blocks[..i], [b], h.blocks[i + 1..]);
    LiveInRange(h.blocks[..i], FIRST_BP, b.bp);
    LiveInRange(h.blocks[i + 1..], b.End(), h.brk);
  }
}
