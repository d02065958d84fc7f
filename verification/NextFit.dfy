/**
 The next-fit allocator as it runs, with its rover `last_bp`.  Each method is proved against the
 function of the same name in `NextFitModel`.
 */
module NextFit {
  import opened BlockList
  import opened Machine
  import opened Requests
  import opened Serving
  import opened TagMemory
  import opened Overruns
  import Model = NextFitModel
  import FF = FirstFitModel
  import FirstFit

  class Allocator {
    const mem: array<byte>
    const width: Width
    const base: int
    var brk: int
    var startBp: int
    var lastBp: int
    ghost var blocks: seq<Block>

    ghost function State(): Model.Roving
      reads this
    {
      Model.Roving(Heap(blocks, brk), lastBp)
    }

    function Sys(): System { System(width, base, mem.Length) }

    ghost predicate Initialised()
      reads this, mem
    {
      startBp == 8 && Encodes(mem[..], blocks, brk) && Coalesced(blocks)
    }

    ghost predicate Valid()
      reads this, mem
    {
      Initialised() && Model.RoverOk(State())
    }

    constructor (sys: System)
      requires 0 <= sys.limit
      ensures fresh(mem) && Sys() == sys && brk == 0
    {
      mem := new byte[sys.limit](_ => 0);
      width, base := sys.width, sys.base;
      brk, startBp, lastBp, blocks := 0, 0, 0, [];
    }

    /** Growing also moves the rover: `coalesce` leaves it at the new free block. */
    method ExtendHeap(words: nat) returns (bp: int)
      requires Initialised() && Sane(Sys()) && words >= 4 && EvenWords(words) < width.Modulus()
      requires !Strays(Sys(), brk, ToInt32(EvenWords(words)))
      modifies this`brk, this`blocks, this`lastBp, mem
      ensures var h, size, incr := Heap(old(blocks), old(brk)), EvenWords(words), ToInt32(EvenWords(words));
        if SbrkAccepts(Sys(), old(brk), incr) then
          && brk == old(brk) + incr
          && bp == lastBp == Opened(h, incr).bp
          && FIRST_BP <= old(brk) && 0 <= incr && brk <= mem.Length && Grown(old(mem[..]), mem[..], old(blocks), old(brk), incr)
          && (size <= INT_MAX ==>
                Initialised() && Heap(blocks, brk) == Grow(h, size) && PayloadsKept(old(mem[..]), mem[..], Live(old(blocks))))
        else
          bp == 0 && State() == old(State()) && mem[..] == old(mem[..]) && Initialised()
    {
      hide Encodes, Coalesced, PayloadsKept, Merge, Union, Grown, ToInt32, Address, Opened;
      EvenWordsAligned(words);
      var size := if words % 2 != 0 then (words + 1) * 4 else words * 4;
      ghost var h := Heap(blocks, brk);
      bp, brk := GrowHeap(mem, Sys(), brk, size, blocks);
      if bp == 0 { return; }
      lastBp := bp;
      if size <= INT_MAX { blocks := Grow(h, size).blocks; }
    }

    /** `mm_init` on an empty region.  When it fails the break says how far it came, and the rover is as it was. */
    method Init() returns (r: int)
      requires brk == 0 && mem.Length <= INT_MAX && 0 < base && base % 8 == 0
      requires base + mem.Length < width.Modulus() && base + FIRST_BP + CHUNKSIZE < width.Modulus()
      modifies this`brk, this`blocks, this`startBp, this`lastBp, mem
      ensures r == if FIRST_BP + CHUNKSIZE <= mem.Length then 0 else -1
      ensures r == 0 ==> Valid() && State() == Model.Init()
      ensures r == -1 ==> lastBp == old(lastBp)
      ensures r == -1 && FIRST_BP <= mem.Length ==> Initialised() && Heap(blocks, brk) == Heap([], FIRST_BP)
      ensures r == -1 && mem.Length < FIRST_BP ==> brk == 0 && startBp == -1 && mem[..] == old(mem[..])
    {
      hide Word, Tiles;
      startBp, brk := Sbrk(Sys(), brk, 4 * 4);
      if startBp == -1 { return -1; }
      InitTags(mem, startBp);
      blocks := [];
      startBp := startBp + 2 * 4;
      EncodedBounds(mem[..], [], brk);
      AcceptsExactly(Sys(), FIRST_BP, CHUNKSIZE);
      OpenedAt(Heap([], FIRST_BP), CHUNKSIZE);
      var bp := ExtendHeap(CHUNKSIZE / 4);
      if bp == 0 { return -1; }
      lastBp := startBp;
      return 0;
    }

    /** The rover as a stop of the walk: stop 0 is the prologue, stop `k` is block `k - 1`. */
    ghost function Stop(k: nat): int
      reads this
      requires k <= |blocks| + 1
    {
      if k == 0 then 8 else At(blocks, k - 1, brk)
    }

    lemma HeaderAtStop(k: nat)
      requires Initialised() && k <= |blocks| + 1
      ensures 8 <= Stop(k) <= mem.Length
      ensures k <= |blocks| ==> NextBlkp(mem, Stop(k)) == Stop(k + 1) > Stop(k)
      ensures 0 < k <= |blocks| ==>
        GetSize(mem, Stop(k) - 4) == blocks[k - 1].size > 0 && GetAlloc(mem, Stop(k) - 4) == blocks[k - 1].alloc
      ensures k == |blocks| + 1 ==> GetSize(mem, Stop(k) - 4) == 0 && GetAlloc(mem, Stop(k) - 4)
    {
      hide Get, GetSize, GetAlloc, Encodes;
      HeaderOfPrologue(mem, blocks, brk);
      if k > 0 { HeaderAt(mem, blocks, brk, k - 1); } else { HeaderAt(mem, blocks, brk, 0); }
    }

    lemma RoverStop()
      requires Valid()
      ensures lastBp == Stop(Model.Passed(blocks, lastBp))
    {
      if lastBp != 8 {
        var b :| b in blocks && b.bp == lastBp;
        PointerFinds(Heap(blocks, brk), b);
      }
    }

    lemma {:induction false} StopsIncrease(j: nat, k: nat)
      requires Initialised() && j < k <= |blocks| + 1
      ensures Stop(j) < Stop(k)
      decreases k
    {
      HeaderAtStop(k - 1);
      if j < k - 1 { StopsIncrease(j, k - 1); }
    }

    /** `next_fit`: rover to end for a larger block, then start to rover for one as large. */
    method FindFit(asize: int) returns (bp: int)
      requires Valid()
      modifies this`lastBp
      ensures var i := Model.NextFit(blocks, Model.Passed(blocks, old(lastBp)), asize);
        if i < |blocks| then bp == blocks[i].bp == lastBp else bp == 0 && lastBp == old(lastBp)
    {
      hide Encodes, Model.Passed, Coalesced;
      ghost var passed := Model.Passed(blocks, lastBp);
      RoverStop();
      bp := FindAhead(asize, passed);
      if bp != 0 {
        lastBp := bp;
        return;
      }
      bp := FindBehind(asize, passed);
      if bp != 0 { lastBp := bp; }
    }

    /** The first loop of `next_fit`. */
    method FindAhead(asize: int, ghost passed: nat) returns (bp: int)
      requires Initialised() && passed <= |blocks| && lastBp == Stop(passed)
      ensures var i := Model.Search(blocks, passed, |blocks|, asize + 1);
        bp == (if i < |blocks| then blocks[i].bp else 0) && (i < |blocks| ==> bp > 0)
    {
      hide Get, GetSize, GetAlloc, Encodes;
      bp := lastBp;
      ghost var k := passed;
      var more := true;
      HeaderAtStop(k);
      while more
        invariant passed <= k <= |blocks| + 1 && bp == Stop(k) && 8 <= bp <= mem.Length
        invariant more == (k <= |blocks|)
        invariant forall j :: passed <= j < k && j < |blocks| ==> blocks[j].alloc || blocks[j].size < asize + 1
        decreases |blocks| + 1 - k
      {
        HeaderAtStop(k);
        bp := NextBlkp(mem, bp);
        k := k + 1;
        HeaderAtStop(k);
        if !GetAlloc(mem, bp - 4) && GetSize(mem, bp - 4) > asize {
          assert Model.Search(blocks, passed, |blocks|, asize + 1) == k - 1;
          return;
        }
        more := GetSize(mem, bp - 4) != 0;
      }
      return 0;
    }

    /** The second loop of `next_fit`. */
    method FindBehind(asize: int, ghost passed: nat) returns (bp: int)
      requires Initialised() && passed <= |blocks| && lastBp == Stop(passed)
      ensures var i := Model.Search(blocks, 0, passed, asize);
        bp == (if i < passed then blocks[i].bp else 0) && (i < passed ==> bp > 0)
    {
      hide Get, GetSize, GetAlloc, Encodes;
      bp := startBp;
      ghost var k := 0;
      HeaderAtStop(0);
      while bp < lastBp
        invariant k <= passed && bp == Stop(k) && 8 <= bp <= mem.Length
        invariant forall j :: 0 <= j < k ==> blocks[j].alloc || blocks[j].size < asize
        decreases passed - k
      {
        HeaderAtStop(k);
        bp := NextBlkp(mem, bp);
        k := k + 1;
        HeaderAtStop(k);
        if !GetAlloc(mem, bp - 4) && GetSize(mem, bp - 4) >= asize {
          assert Model.Search(blocks, 0, passed, asize) == k - 1;
          return;
        }
      }
      if k < passed { StopsIncrease(k, passed); }
      return 0;
    }

    /**
     `mm_malloc`, for every size but those that go astray.  Every payload is kept.  The pointer is the
     model's; a request treated as asked leaves the model's state; any other gets a pointer whose bytes run
     past the region, and the tags then describe a heap exactly in the cases of `Survives`.
     */
    method Malloc(size: nat) returns (bp: int)
      requires Valid() && Sane(Sys()) && size < width.Modulus()
      requires size == 0 || !GoesAstray(State().heap, Sys(), size, Model.FoundFor(State(), Sys(), size))
      modifies this`brk, this`blocks, this`lastBp, mem
      ensures bp == Model.Malloc(old(State()), Sys(), size).ptr && brk == Model.BreakAfter(old(State()), Sys(), size)
      ensures PayloadsKept(old(mem[..]), mem[..], Live(old(blocks)))
      ensures var r := Model.Malloc(old(State()), Sys(), size);
        r.Reply? ==> Valid() && State() == r.state && (bp == 0 ==> mem[..] == old(mem[..]))
      ensures var s := old(State());
        && ((bp == 0 || bp + size <= mem.Length) && brk <= mem.Length <==> Model.AsAsked(s, Sys(), size))
        && (!Model.AsAsked(s, Sys(), size) ==>
              Misused(mem[..], brk, s.heap, Sys(), size, Model.FoundFor(s, Sys(), size)))
    {
      hide Encodes, Coalesced, Served, Honest, Misused, Model.FoundFor, GoesAstray, Model.RoverOk, PayloadsKept, Pointer, Break;
      ghost var m, s := mem[..], State();
      EncodedBounds(m, blocks, brk);
      KeptAll(m, Live(blocks));
      Model.HonestExactly(s, Sys(), size);
      if size == 0 {
        ZeroStays(s, Sys());
        return 0;
      }
      if Model.AsAsked(s, Sys(), size) { Model.MallocKeeps(s, Sys(), size); }
      bp := MallocSized(size);
    }

    /** `mm_malloc` from its size computation on. */
    method MallocSized(size: nat) returns (bp: int)
      requires Valid() && Sane(Sys()) && 0 < size < width.Modulus()
      requires !GoesAstray(State().heap, Sys(), size, Model.FoundFor(State(), Sys(), size))
      modifies this`brk, this`blocks, this`lastBp, mem
      ensures var h := old(State()).heap; var i := Model.FoundFor(old(State()), Sys(), size);
        && bp == Pointer(h, Sys(), size, i) && brk == Break(h, Sys(), size, i)
        && lastBp == (if bp == 0 then old(lastBp) else bp)
        && PayloadsKept(old(mem[..]), mem[..], Live(old(blocks)))
        && (Honest(h, Sys(), size, i) ==>
              Initialised() && Heap(blocks, brk) == Served(h, Sys(), size, i) && (bp == 0 ==> mem[..] == old(mem[..])))
        && (!Honest(h, Sys(), size, i) ==> Misused(mem[..], brk, h, Sys(), size, i))
    {
      hide Coalesced, PayloadsKept, Split, Merge, Tiles, AllTagged, Word, KeptLeft, Grown, Union, Opened;
      hide Adjust, EvenWords, ToInt32, Served, Address, Honest, Model.RoverOk, Model.NextFit, Model.Passed;
      var asize := Adjust(width, size);
      ghost var m, h, i := mem[..], Heap(blocks, brk), Model.FoundFor(State(), Sys(), size);
      TilesBounds(blocks, FIRST_BP, brk);
      IncrementAligned(width, size);
      EvenWordsOf(GrowBy(asize));
      Model.FitSearched(State(), Sys(), size);
      AcceptsExactly(Sys(), brk, Increment(width, size));
      bp := FindFit(asize);
      if bp != 0 {
        PlaceFound(mem, bp, asize, width, h, Sys(), size, i);
      } else {
        var extendsize := GrowBy(asize);
        if Increment(width, size) >= 0 { OpenedAt(h, Increment(width, size)); }
        bp := ExtendHeap(extendsize / 4);
        if bp == 0 {
          KeptAll(m, Live(blocks));
          Refused(h, Sys(), size, i);
          return;
        }
        if extendsize <= INT_MAX { SmallAmount(extendsize); }
        PlaceLast(mem, bp, asize, width, m, h, Sys(), size);
      }
      lastBp := bp;
      if Honest(h, Sys(), size, i) {
        ServedBreak(h, Sys(), size, i);
        blocks := Served(h, Sys(), size, i).blocks;
      }
    }

    method Free(ptr: int)
      requires Valid() && Sane(Sys()) && FF.Owns(Heap(blocks, brk), ptr)
      modifies this`blocks, this`lastBp, mem
      ensures Valid() && State() == Model.Free(old(State()), ptr)
      ensures PayloadsKept(old(mem[..]), mem[..], set b | b in Live(old(blocks)) && b.bp != ptr)
    {
      hide Encodes, Coalesced, PayloadsKept, Merge, Tiles, Union, Model.RoverOk, IndexOf, FF.Owns, FF.Free;
      EncodedBounds(mem[..], blocks, brk);
      Model.FreeKeepsRover(State(), Sys(), ptr);
      FirstFit.Located(Heap(blocks, brk), ptr);
      ghost var i := IndexOf(blocks, ptr);
      ghost var left, b, right := blocks[..i], blocks[i], blocks[i + 1..];
      lastBp := Release(mem, ptr, left, b, right, brk);
      blocks := FreeAt(blocks, i);
    }
  
    /** Any run of calls on live pointers. */
    method RunCalls(calls: seq<Model.Call>, ghost client: Model.Client)
      requires Valid() && client.state == State() && Model.Inv(client, Sys()) && Model.LegalRun(client, Sys(), calls)
      modifies this`brk, this`blocks, this`lastBp, mem
      ensures Valid() && State() == Model.Run(client, Sys(), calls).state
    {
      hide Encodes, Coalesced, Model.Malloc, Model.Free, PayloadsKept, Model.RoverOk, Model.Inv, Model.Held, Honest;
      ghost var now := client;
      for i := 0 to |calls|
        invariant Valid() && now.state == State() && Model.Inv(now, Sys()) && Model.LegalRun(now, Sys(), calls[i..])
        invariant Model.Run(now, Sys(), calls[i..]) == Model.Run(client, Sys(), calls)
      {
        assert calls[i..][0] == calls[i] && calls[i..][1..] == calls[i + 1..];
        Model.StepKeeps(now, Sys(), calls[i]);
        OneCall(calls[i], now);
        now := Model.Step(now, Sys(), calls[i]);
      }
      assert calls[|calls|..] == [];
    }

    /** One call of a run. */
    method OneCall(call: Model.Call, ghost client: Model.Client)
      requires Valid() && client.state == State() && Model.Inv(client, Sys()) && Model.Legal(client, Sys(), call)
      modifies this`brk, this`blocks, this`lastBp, mem
      ensures Valid() && State() == Model.Step(client, Sys(), call).state
    {
      hide Encodes, Coalesced, Model.Malloc, Model.Free, PayloadsKept, Model.RoverOk, Honest, FF.Backed;
      match call
      case CallMalloc(size) =>
        Model.ReplyExactly(client.state, Sys(), size);
        AskedStays(client.state, Sys(), size);
        var _ := Malloc(size);
      case CallFree(p) =>
        Model.OwnsHeld(client, p);
        Free(p);
    }
  }

  lemma ZeroStays(s: Model.Roving, sys: System)
    ensures var i := Model.FoundFor(s, sys, 0);
      Break(s.heap, sys, 0, i) == s.heap.brk && Pointer(s.heap, sys, 0, i) == 0 && Served(s.heap, sys, 0, i) == s.heap
  {}

  /** A request treated as asked does not go astray. */
  lemma AskedStays(s: Model.Roving, sys: System, size: nat)
    requires Model.Ok(s, sys) && Model.AsAsked(s, sys, size)
    ensures size == 0 || !GoesAstray(s.heap, sys, size, Model.FoundFor(s, sys, size))
  {
    hide Honest, GoesAstray, Model.FoundFor;
    Model.Initialised(s, sys);
    if size > 0 { HonestStays(s.heap, sys, size, Model.FoundFor(s, sys, size)); }
  }
}
