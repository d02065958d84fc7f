/**
 The next-fit allocator on block lists: the same heap with a rover, the pointer from which the
 next search starts.
 */
module NextFitModel {
  import opened BlockList
  import opened Machine
  import opened Requests
  import opened Serving
  import FF = FirstFitModel

  const PROLOGUE: int := 8

  datatype Roving = Roving(heap: Heap, last: int)

  /** A pointer and the state it leaves; or a pointer for a request that was not treated as asked. */
  datatype Reply = Reply(state: Roving, ptr: int) | Misled(ptr: int)

  /** The first free block of at least `need` bytes in `[lo, hi)`, or `hi`. */
  function Search(bs: seq<Block>, lo: nat, hi: nat, need: int): (i: nat)
    requires lo <= hi <= |bs|
    ensures lo <= i <= hi
    ensures i < hi ==> !bs[i].alloc && need <= bs[i].size
    ensures forall j :: lo <= j < i ==> bs[j].alloc || bs[j].size < need
    decreases hi - lo
  {
    if lo == hi || (!bs[lo].alloc && need <= bs[lo].size) then lo else Search(bs, lo + 1, hi, need)
  }

  /** How many blocks lie up to and including the rover. */
  function Passed(bs: seq<Block>, last: int): (n: nat)
    ensures n <= |bs|
  {
    var i := IndexOf(bs, last);
    if last == PROLOGUE || i == |bs| then 0 else i + 1
  }

  /** Blocks after the rover must be larger than `asize`; the others only as large. */
  function NextFit(bs: seq<Block>, passed: nat, asize: int): (i: nat)
    requires passed <= |bs|
    ensures i <= |bs|
  {
    var ahead := Search(bs, passed, |bs|, asize + 1);
    var behind := Search(bs, 0, passed, asize);
    if ahead < |bs| then ahead else if behind < passed then behind else |bs|
  }

  function Init(): Roving {
    Roving(Grow(Heap([], FIRST_BP), CHUNKSIZE), PROLOGUE)
  }

  /** The block `next_fit` gives for a request, or the number of blocks. */
  function FoundFor(s: Roving, sys: System, size: nat): (i: nat)
    ensures i <= |s.heap.blocks|
  {
    NextFit(s.heap.blocks, Passed(s.heap.blocks, s.last), Adjust(sys.width, size))
  }

  /** The request is treated as asked. */
  predicate AsAsked(s: Roving, sys: System, size: nat) {
    size == 0 || Honest(s.heap, sys, size, FoundFor(s, sys, size))
  }

  /** The block handed out becomes the rover. */
  function Malloc(s: Roving, sys: System, size: nat): Reply {
    var i := FoundFor(s, sys, size);
    var ptr := Pointer(s.heap, sys, size, i);
    if AsAsked(s, sys, size) then
      Reply(Roving(Served(s.heap, sys, size, i), if ptr == 0 then s.last else ptr), ptr)
    else Misled(ptr)
  }

  /** Where `mm_malloc` puts the break. */
  function BreakAfter(s: Roving, sys: System, size: nat): int { Break(s.heap, sys, size, FoundFor(s, sys, size)) }

  /** Freeing moves the rover to the merged block. */
  function Free(s: Roving, p: int): Roving {
    var bs, i := s.heap.blocks, IndexOf(s.heap.blocks, p);
    if i == |bs| then s
    else Roving(Heap(FreeAt(bs, i), s.heap.brk), Union(bs[..i], bs[i].(alloc := false), bs[i + 1..]).bp)
  }

  /** The rover is the prologue or the start of a current block. */
  ghost predicate RoverOk(s: Roving) {
    s.last == PROLOGUE || exists b :: b in s.heap.blocks && b.bp == s.last
  }

  ghost predicate Ok(s: Roving, sys: System) {
    Sane(sys) && WellFormed(s.heap) && s.heap.brk <= sys.limit && RoverOk(s)
  }

  // ---------------------------------------------------------------- the search

  predicate AcceptedAhead(b: Block, asize: int) { !b.alloc && asize < b.size }

  predicate AcceptedBehind(b: Block, asize: int) { !b.alloc && asize <= b.size }

  /** `next_fit` fails exactly when no block is acceptable on its side of the rover. */
  lemma NextFitExactly(bs: seq<Block>, passed: nat, asize: int)
    requires passed <= |bs|
    ensures NextFit(bs, passed, asize) == |bs| <==>
      && (forall k :: passed <= k < |bs| ==> !AcceptedAhead(bs[k], asize))
      && (forall k :: 0 <= k < passed ==> !AcceptedBehind(bs[k], asize))
  {
    var ahead := Search(bs, passed, |bs|, asize + 1);
    var behind := Search(bs, 0, passed, asize);
    if ahead < |bs| { assert AcceptedAhead(bs[ahead], asize); }
    if behind < passed { assert AcceptedBehind(bs[behind], asize); }
  }

  /** Otherwise it gives the first acceptable block, rover to end first, then start to rover. */
  lemma NextFitFirst(bs: seq<Block>, passed: nat, asize: int)
    requires passed <= |bs| && NextFit(bs, passed, asize) < |bs|
    ensures var i := NextFit(bs, passed, asize);
      if passed <= i then
        AcceptedAhead(bs[i], asize) && forall k :: passed <= k < i ==> !AcceptedAhead(bs[k], asize)
      else
        && AcceptedBehind(bs[i], asize)
        && (forall k :: passed <= k < |bs| ==> !AcceptedAhead(bs[k], asize))
        && (forall k :: 0 <= k < i ==> !AcceptedBehind(bs[k], asize))
  {
    var ahead := Search(bs, passed, |bs|, asize + 1);
    assert ahead == |bs| || NextFit(bs, passed, asize) == ahead;
  }

  // ---------------------------------------------------------------- calls

  lemma InitOk(sys: System)
    requires Sane(sys) && FIRST_BP + CHUNKSIZE <= sys.limit
    ensures Ok(Init(), sys) && Live(Init().heap.blocks) == {}
  {
    var h := Heap([], FIRST_BP);
    assert Live(h.blocks) == {};
    GrowKeeps(h, CHUNKSIZE);
  }

  lemma FitSearched(s: Roving, sys: System, size: nat)
    ensures Searched(s.heap, FoundFor(s, sys, size), Adjust(sys.width, size))
  {
    hide Adjust, Passed;
    var bs, passed, asize := s.heap.blocks, Passed(s.heap.blocks, s.last), Adjust(sys.width, size);
    var ahead := Search(bs, passed, |bs|, asize + 1);
    var behind := Search(bs, 0, passed, asize);
  }

  lemma ReplyExactly(s: Roving, sys: System, size: nat)
    ensures Malloc(s, sys, size).Reply? <==> AsAsked(s, sys, size)
  {}

  /** A request treated as asked: one new live block of the size asked for, now the rover; or NULL and no change. */
  lemma MallocKeeps(s: Roving, sys: System, size: nat)
    requires Ok(s, sys) && size < sys.width.Modulus() && Malloc(s, sys, size).Reply?
    ensures var r := Malloc(s, sys, size);
      && Ok(r.state, sys)
      && (r.ptr == 0 ==> r.state == s)
      && (r.ptr != 0 ==> r.state.last == r.ptr && Allocates(s.heap, r.state.heap, r.ptr, size))
  {
    hide Allocates, FoundFor, Honest;
    if size > 0 {
      hide Served, Pointer;
      FitSearched(s, sys, size);
      HonestServed(s.heap, s.heap, sys, size, FoundFor(s, sys, size));
      var r := Malloc(s, sys, size);
      if r.ptr != 0 { AllocatedIsBlock(s.heap, r.state.heap, r.ptr, size); }
    }
  }

  lemma AllocatedIsBlock(h: Heap, h': Heap, ptr: int, size: nat)
    requires Allocates(h, h', ptr, size)
    ensures exists b :: b in h'.blocks && b.bp == ptr
  {
    assert BlockAt(h', ptr) in Live(h'.blocks);
  }

  /** `mm_malloc` keeps its promise exactly for the requests it treats as asked. */
  lemma HonestExactly(s: Roving, sys: System, size: nat)
    requires Ok(s, sys) && size < sys.width.Modulus()
    ensures Kept(sys, size, Malloc(s, sys, size).ptr, BreakAfter(s, sys, size)) <==> AsAsked(s, sys, size)
  {
    hide Honest, Served, Pointer, Break, FoundFor, Kept;
    FitSearched(s, sys, size);
    KeptExactly(s.heap, sys, size, FoundFor(s, sys, size));
  }

  /** A request that is misled: which of the two runs past the end of the region. */
  lemma MisledOverruns(s: Roving, sys: System, size: nat)
    requires Ok(s, sys) && size < sys.width.Modulus() && Malloc(s, sys, size).Misled?
    ensures Malloc(s, sys, size).ptr >= FIRST_BP
    ensures if GoesAstray(s.heap, sys, size, FoundFor(s, sys, size)) then BreakAfter(s, sys, size) > sys.limit
            else Malloc(s, sys, size).ptr + size > sys.limit && BreakAfter(s, sys, size) <= sys.limit
  {
    hide Honest, Pointer, Break, FoundFor, GoesAstray;
    FitSearched(s, sys, size);
    DishonestOverruns(s.heap, sys, size, FoundFor(s, sys, size));
  }

  lemma FreshChunk()
    ensures Init().heap == Heap([Block(FIRST_BP, CHUNKSIZE, false)], FIRST_BP + CHUNKSIZE)
    ensures Passed(Init().heap.blocks, Init().last) == 0
  {
    assert KeptLeft([]) == [] && KeptRight([]) == [];
  }

  /**
   Built for 32 bits, a fresh heap of one chunk that may not grow hands out its block for a request of
   2^32 - 5 bytes: the rounding wraps to 8.
   */
  lemma WrappedRequest(base: int)
    requires Sane(System(Bits32, base, FIRST_BP + CHUNKSIZE))
    ensures var s, sys := Init(), System(Bits32, base, FIRST_BP + CHUNKSIZE);
      && Ok(s, sys)
      && Adjust(Bits32, TWO32 - 5) == 8
      && Malloc(s, sys, TWO32 - 5) == Misled(FIRST_BP)
  {
    var s, sys := Init(), System(Bits32, base, FIRST_BP + CHUNKSIZE);
    InitOk(sys);
    FreshChunk();
    AdjustWrapped(Bits32, TWO32 - 5);
    assert Search(s.heap.blocks, 0, 1, 9) == 0;
  }

  /**
   Built for 32 bits, with 20 MB at 0xf54e2010, a fresh heap takes 300 000 000 bytes: the address sum
   wraps, `mem_sbrk` agrees, and the break is past the end of memory.
   */
  lemma StrayRequest()
    ensures var s, sys, size := Init(), System(Bits32, 0xf54e2010, 20 * 0x10_0000), 300_000_000;
      && Ok(s, sys)
      && SbrkAccepts(sys, s.heap.brk, Increment(Bits32, size))
      && GoesAstray(s.heap, sys, size, FoundFor(s, sys, size))
      && Malloc(s, sys, size) == Misled(FIRST_BP)
      && sys.base + BreakAfter(s, sys, size) >= TWO32
  {
    var s, sys, size := Init(), System(Bits32, 0xf54e2010, 20 * 0x10_0000), 300_000_000;
    InitOk(sys);
    FreshChunk();
    assert Adjust(Bits32, size) == 300_000_008;
    AcceptsExactly(sys, s.heap.brk, 300_000_008);
    FitSearched(s, sys, size);
    assert FoundFor(s, sys, size) == 1;
  }

  /** NULL exactly for size 0, or when the search fails and `mem_sbrk` refuses the amount it is given. */
  lemma MallocNullExactly(s: Roving, sys: System, size: nat)
    requires Ok(s, sys) && size < sys.width.Modulus()
    ensures Malloc(s, sys, size).ptr == 0 <==>
      size == 0
      || (NextFit(s.heap.blocks, Passed(s.heap.blocks, s.last), Adjust(sys.width, size)) == |s.heap.blocks|
          && !SbrkAccepts(sys, s.heap.brk, Increment(sys.width, size)))
  {
    hide Adjust, ToInt32, NextFit, Passed, Pointer, Honest, Served, Address;
    NullExactly(s.heap, sys, size, FoundFor(s, sys, size));
  }

  /** A free block that the search takes from where the rover is. */
  predicate Takes(s: Roving, b: Block, asize: int) {
    !b.alloc && if b.bp > s.last then asize < b.size else asize <= b.size
  }

  /** Coming from the rover, first to the end and then from the start, `b` is met before `c`. */
  predicate MetBefore(s: Roving, b: Block, c: Block) {
    if b.bp > s.last then c.bp <= s.last || b.bp < c.bp else c.bp <= s.last && b.bp < c.bp
  }

  /**
   The block handed out, told by addresses alone: the first that the search takes on its way from the
   rover round to it; only if it takes none, a block at the end of a heap that grows.
   */
  lemma MallocTakesNext(s: Roving, sys: System, size: nat)
    requires Ok(s, sys) && 0 < size < sys.width.Modulus() && AsAsked(s, sys, size) && Malloc(s, sys, size).ptr != 0
    ensures var bs, asize, r := s.heap.blocks, Adjust(sys.width, size), Malloc(s, sys, size);
      if exists c :: c in bs && Takes(s, c, asize) then
        && r.state.heap.brk == s.heap.brk
        && exists b :: b in bs && b.bp == r.ptr && Takes(s, b, asize)
             && forall c :: c in bs && c != b && Takes(s, c, asize) ==> MetBefore(s, b, c)
      else
        var g := r.state.heap.brk - s.heap.brk;
        && g % 8 == 0 && g >= CHUNKSIZE && g >= size + 8 && (g == CHUNKSIZE || g < size + 16)
        && r.ptr == (if LastFree(bs) then bs[|bs| - 1].bp else s.heap.brk)
  {
    hide Adjust, Honest, Served, Pointer, NextFit, LastFree;
    var bs, asize, i := s.heap.blocks, Adjust(sys.width, size), FoundFor(s, sys, size);
    FitSearched(s, sys, size);
    ServedWhere(s.heap, sys, size, i);
    ByAddress(s);
    if i < |bs| {
      NextFitFirst(bs, Passed(bs, s.last), asize);
      assert bs[i] in bs && Takes(s, bs[i], asize);
      forall c | c in bs && c != bs[i] && Takes(s, c, asize) ensures MetBefore(s, bs[i], c) {
        var k :| 0 <= k < |bs| && bs[k] == c;
      }
    } else {
      NextFitExactly(bs, Passed(bs, s.last), asize);
      forall c | c in bs ensures !Takes(s, c, asize) {
        var k :| 0 <= k < |bs| && bs[k] == c;
      }
    }
  }

  /** Blocks lie in the order of their addresses, those up to the rover first. */
  lemma ByAddress(s: Roving)
    requires WellFormed(s.heap) && RoverOk(s)
    ensures var bs, passed := s.heap.blocks, Passed(s.heap.blocks, s.last);
      && (forall j, k :: 0 <= j < k < |bs| ==> bs[j].bp < bs[k].bp)
      && (forall k :: 0 <= k < |bs| ==> (bs[k].bp > s.last <==> k >= passed))
  {
    TilesBounds(s.heap.blocks, FIRST_BP, s.heap.brk);
    if s.last != PROLOGUE {
      var b :| b in s.heap.blocks && b.bp == s.last;
      PointerFinds(s.heap, b);
    }
  }

  /** A fresh heap of one chunk that may not grow refuses the request its only block fits exactly. */
  lemma ExactFitRefused(w: Width, base: int)
    requires Sane(System(w, base, FIRST_BP + CHUNKSIZE)) && base + FIRST_BP + 2 * CHUNKSIZE < w.Modulus()
    ensures var s, sys, size := Init(), System(w, base, FIRST_BP + CHUNKSIZE), CHUNKSIZE - 8;
      && Ok(s, sys)
      && s.heap.blocks == [Block(FIRST_BP, Adjust(w, size), false)]
      && Malloc(s, sys, size) == Reply(s, 0)
      && FF.Malloc(s.heap, sys, size).ptr == FIRST_BP
  {
    var s, sys := Init(), System(w, base, FIRST_BP + CHUNKSIZE);
    InitOk(sys);
    FreshChunk();
    assert Adjust(w, CHUNKSIZE - 8) == CHUNKSIZE;
    AcceptsExactly(sys, s.heap.brk, CHUNKSIZE);
    assert Search(s.heap.blocks, 0, 1, CHUNKSIZE + 1) == 1;
    assert FF.FirstFit(s.heap.blocks, CHUNKSIZE) == 0;
  }

  /** When a request is refused although some free block could hold it: only exact fits ahead are left. */
  lemma MissedFitExactly(s: Roving, sys: System, size: nat)
    requires Ok(s, sys) && 0 < size < sys.width.Modulus()
    ensures var bs, passed, asize := s.heap.blocks, Passed(s.heap.blocks, s.last), Adjust(sys.width, size);
      (Malloc(s, sys, size).ptr == 0 && exists k :: 0 <= k < |bs| && AcceptedBehind(bs[k], asize))
      <==>
      && !SbrkAccepts(sys, s.heap.brk, Increment(sys.width, size))
      && (forall k :: 0 <= k < passed ==> !AcceptedBehind(bs[k], asize))
      && (forall k :: passed <= k < |bs| ==> !AcceptedAhead(bs[k], asize))
      && (exists k :: passed <= k < |bs| && !bs[k].alloc && bs[k].size == asize)
  {
    hide Malloc, NextFit, Passed, Adjust, Tiles, ToInt32;
    var bs, passed, asize := s.heap.blocks, Passed(s.heap.blocks, s.last), Adjust(sys.width, size);
    MallocNullExactly(s, sys, size);
    NextFitExactly(bs, passed, asize);
    if exists k :: passed <= k < |bs| && !bs[k].alloc && bs[k].size == asize {
      var k :| passed <= k < |bs| && !bs[k].alloc && bs[k].size == asize;
      assert AcceptedBehind(bs[k], asize);
    }
    if k :| 0 <= k < |bs| && AcceptedBehind(bs[k], asize) && (k < passed || !AcceptedAhead(bs[k], asize)) {
      assert k < passed || bs[k].size == asize;
    }
  }

  /** Freeing leaves the rover on the free block that the freed one has become part of. */
  lemma FreeKeepsRover(s: Roving, sys: System, p: int)
    requires Ok(s, sys) && FF.Owns(s.heap, p)
    ensures Ok(Free(s, p), sys)
    ensures Live(Free(s, p).heap.blocks) == set b | b in Live(s.heap.blocks) && b.bp != p
    ensures Free(s, p).heap == FF.Free(s.heap, p)
    ensures exists b :: b in Free(s, p).heap.blocks && b.bp == Free(s, p).last && !b.alloc && b.bp <= p < b.End()
  {
    hide Tiles, Coalesced, IndexOf, FF.Free, Live, FF.Owns;
    var b := FoundBlock(s.heap, p);
    var bs, i := s.heap.blocks, IndexOf(s.heap.blocks, p);
    Initialised(s, sys);
    FF.FreeReleases(s.heap, sys, p);
    SameHeap(s, p);
    UnionAround(bs, i, s.heap.brk);
    UnionIsBlock(bs[..i], bs[i].(alloc := false), bs[i + 1..]);
    assert Union(bs[..i], bs[i].(alloc := false), bs[i + 1..]) in Free(s, p).heap.blocks;
  }

  lemma FoundBlock(h: Heap, p: int) returns (b: Block)
    requires WellFormed(h) && FF.Owns(h, p)
    ensures IndexOf(h.blocks, p) < |h.blocks| && b == h.blocks[IndexOf(h.blocks, p)] && b.bp == p >= FIRST_BP
  {
    b :| b in Live(h.blocks) && b.bp == p;
    PointerFinds(h, b);
    TilesBounds(h.blocks, FIRST_BP, h.brk);
  }

  lemma SameHeap(s: Roving, p: int)
    requires p != 0
    ensures Free(s, p).heap == FF.Free(s.heap, p)
  {}

  /** The merged block contains the one it is made around. */
  lemma UnionAround(bs: seq<Block>, i: nat, to: int)
    requires Tiles(bs, FIRST_BP, to) && i < |bs|
    ensures var u := Union(bs[..i], bs[i].(alloc := false), bs[i + 1..]);
      u.bp <= bs[i].bp < bs[i].End() <= u.End() && !u.alloc
  {
    TilesBounds(bs, FIRST_BP, to);
  }

  lemma UnionIsBlock(left: seq<Block>, b: Block, right: seq<Block>)
    ensures Union(left, b, right) in Merge(left, b, right)
  {
    assert Merge(left, b, right)[|KeptLeft(left)|] == Union(left, b, right);
  }

  // ---------------------------------------------------------------- runs

  datatype Call = CallMalloc(size: nat) | CallFree(p: int)

  /** The allocator and what its client holds: for each live pointer the size that was asked for. */
  datatype Client = Client(state: Roving, owned: map<int, nat>)

  /** What the client holds, the rover left aside. */
  function Held(c: Client): FF.Client { FF.Client(c.state.heap, c.owned) }

  ghost predicate Legal(c: Client, sys: System, call: Call) {
    match call
    case CallMalloc(size) => size < sys.width.Modulus() && AsAsked(c.state, sys, size)
    case CallFree(p) => p in c.owned
  }

  /** One legal call; a misled request ends what can be said about the heap. */
  function Step(c: Client, sys: System, call: Call): Client {
    match call
    case CallMalloc(size) =>
      var r := Malloc(c.state, sys, size);
      if r.Misled? then c else Client(r.state, if r.ptr == 0 then c.owned else c.owned[r.ptr := size])
    case CallFree(p) => Client(Free(c.state, p), c.owned - {p})
  }

  function Run(c: Client, sys: System, calls: seq<Call>): Client
    decreases |calls|
  {
    if calls == [] then c else Run(Step(c, sys, calls[0]), sys, calls[1..])
  }

  ghost predicate LegalRun(c: Client, sys: System, calls: seq<Call>)
    decreases |calls|
  {
    calls == [] || (Legal(c, sys, calls[0]) && LegalRun(Step(c, sys, calls[0]), sys, calls[1..]))
  }

  ghost predicate Inv(c: Client, sys: System) { Ok(c.state, sys) && FF.Backed(Held(c)) }

  lemma StepKeeps(c: Client, sys: System, call: Call)
    requires Inv(c, sys) && Legal(c, sys, call)
    ensures Inv(Step(c, sys, call), sys)
  {
    hide Malloc, AsAsked, FF.Backed, Allocates, RoverOk, Free, FF.Free;
    match call
    case CallMalloc(size) =>
      ReplyExactly(c.state, sys, size);
      MallocKeeps(c.state, sys, size);
      var r := Malloc(c.state, sys, size);
      FF.GiveBacked(Held(c), FF.Reply(r.state.heap, r.ptr), size);
    case CallFree(p) =>
      Initialised(c.state, sys);
      OwnsHeld(c, p);
      FreeKeepsRover(c.state, sys, p);
      FF.TakeKeeps(Held(c), sys, p);
  }

  lemma OwnsHeld(c: Client, p: int)
    requires FF.Backed(Held(c)) && p in c.owned
    ensures FF.Owns(c.state.heap, p)
  {}

  lemma Initialised(s: Roving, sys: System)
    requires Ok(s, sys)
    ensures s.heap.brk >= FIRST_BP && FF.Ok(s.heap, sys)
  {
    TilesBounds(s.heap.blocks, FIRST_BP, s.heap.brk);
  }

  lemma {:induction false} RunKeeps(c: Client, sys: System, calls: seq<Call>)
    requires Inv(c, sys) && LegalRun(c, sys, calls)
    ensures Inv(Run(c, sys, calls), sys)
    decreases |calls|
  {
    if calls != [] {
      StepKeeps(c, sys, calls[0]);
      RunKeeps(Step(c, sys, calls[0]), sys, calls[1..]);
    }
  }

  /** The client of a heap fresh from `mm_init`. */
  function Start(): Client { Client(Init(), map[]) }

  lemma StartInv(sys: System)
    requires Sane(sys) && FIRST_BP + CHUNKSIZE <= sys.limit
    ensures Inv(Start(), sys)
  {
    InitOk(sys);
  }

  /** In every reachable state the client's payloads are aligned, inside the heap, as large as asked and disjoint. */
  lemma RunSafe(sys: System, calls: seq<Call>)
    requires Sane(sys) && FIRST_BP + CHUNKSIZE <= sys.limit && LegalRun(Start(), sys, calls)
    ensures FF.Safe(Held(Run(Start(), sys, calls)), sys)
  {
    StartInv(sys);
    RunKeeps(Start(), sys, calls);
    var c := Run(Start(), sys, calls);
    Initialised(c.state, sys);
    FF.BackedSafe(Held(c), sys);
  }

  /** After every run from `mm_init` the rover is the prologue or the start of a current block. */
  lemma RoverNeverLost(sys: System, calls: seq<Call>)
    requires Sane(sys) && FIRST_BP + CHUNKSIZE <= sys.limit && LegalRun(Start(), sys, calls)
    ensures var s := Run(Start(), sys, calls).state;
      && RoverOk(s) && WellFormed(s.heap)
      && (forall b :: b in s.heap.blocks ==> !(b.bp < s.last < b.End()))
  {
    StartInv(sys);
    RunKeeps(Start(), sys, calls);
    var s := Run(Start(), sys, calls).state;
    TilesBounds(s.heap.blocks, FIRST_BP, s.heap.brk);
    if s.last != PROLOGUE {
      var c :| c in s.heap.blocks && c.bp == s.last;
      forall b | b in s.heap.blocks ensures !(b.bp < s.last < b.End()) {
        if b != c { FF.LiveApart(s.heap, b, c); }
      }
    }
  }
}
