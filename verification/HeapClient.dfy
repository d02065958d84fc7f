/**
 The first-fit allocator seen by its client: every live pointer behaves like a memory object of its
 own.  A client that mixes calls with writes into its objects finds in each of them what it wrote
 there, whatever happened to the other objects and to the heap around them.
 */
module HeapClient {
  import opened BlockList
  import opened Machine
  import opened Requests
  import opened Serving
  import opened TagMemory
  import Model = FirstFitModel
  import FirstFit

  datatype Act = Call(call: Model.Call) | Write(p: int, k: nat, v: byte)

  /** The client's pointers and, for each, the bytes it knows: those written and not lost by shrinking. */
  datatype World = World(client: Model.Client, known: map<int, map<int, int>>)

  ghost predicate Legal(w: World, sys: System, a: Act) {
    match a
    case Call(c) => Model.Legal(w.client, sys, c)
    case Write(p, k, v) => p in w.client.owned && k < w.client.owned[p]
  }

  /** The bytes of object `p` that survive a change to `size` bytes. */
  function Kept(known: map<int, map<int, int>>, p: int, size: nat): map<int, int> {
    if p in known then map k | k in known[p] && k < size :: known[p][k] else map[]
  }

  function Remember(w: World, sys: System, c: Model.Call): map<int, map<int, int>> {
    match c
    case CallMalloc(size) =>
      var r := Model.Malloc(w.client.heap, sys, size);
      if r.ptr == 0 || r.Misled? then w.known else w.known[r.ptr := map[]]
    case CallFree(p) => w.known - {p}
    case CallRealloc(p, size) =>
      if size == 0 then w.known - {p}
      else
        var r := Model.Malloc(w.client.heap, sys, size);
        if r.ptr == 0 || r.Misled? then w.known else (w.known - {p})[r.ptr := Kept(w.known, p, size)]
  }

  function Step(w: World, sys: System, a: Act): World {
    match a
    case Call(c) => World(Model.Step(w.client, sys, c), Remember(w, sys, c))
    case Write(p, k, v) => if p in w.known then w.(known := w.known[p := w.known[p][k := v]]) else w
  }

  function Run(w: World, sys: System, acts: seq<Act>): World
    decreases |acts|
  {
    if acts == [] then w else Run(Step(w, sys, acts[0]), sys, acts[1..])
  }

  ghost predicate LegalRun(w: World, sys: System, acts: seq<Act>)
    decreases |acts|
  {
    acts == [] || (Legal(w, sys, acts[0]) && LegalRun(Step(w, sys, acts[0]), sys, acts[1..]))
  }

  ghost predicate Inv(w: World, sys: System) {
    && Model.Inv(w.client, sys)
    && w.known.Keys == w.client.owned.Keys
    && forall p: int, k: int :: p in w.known && k in w.known[p] ==> 0 <= k < w.client.owned[p]
  }

  /** The memory holds every byte the client knows. */
  ghost predicate Agrees(m: seq<byte>, w: World) { Holds(m, w.known) }

  ghost predicate Holds(m: seq<byte>, known: map<int, map<int, int>>) {
    forall p: int, k: int :: p in known && k in known[p] ==> 0 <= p + k < |m| && m[p + k] == known[p][k]
  }

  // ---------------------------------------------------------------- the bookkeeping

  lemma StepKeeps(w: World, sys: System, a: Act)
    requires Inv(w, sys) && Legal(w, sys, a)
    ensures Inv(Step(w, sys, a), sys)
  {
    hide Model.Malloc, Model.Free, Model.Inv, Model.Legal;
    match a
    case Write(p, k, v) =>
    case Call(c) =>
      Model.StepKeeps(w.client, sys, c);
      NewPointer(w.client, sys, c);
  }

  /** A pointer just handed out is none the client already had, and not the one being moved. */
  lemma NewPointer(client: Model.Client, sys: System, c: Model.Call)
    requires Model.Inv(client, sys) && Model.Legal(client, sys, c)
    ensures c.CallMalloc? || c.CallRealloc? ==>
      var q := Model.Malloc(client.heap, sys, c.size).ptr;
      q != 0 && c.size > 0 ==> q !in client.owned && (c.CallRealloc? ==> q != c.p)
  {
    hide Model.Malloc, Model.Inv;
    if !c.CallFree? && c.size > 0 { Model.GiveKeeps(client, sys, c.size); }
  }

  // ---------------------------------------------------------------- what the client knows

  /** The act neither gives up object `p` nor writes its byte `k`. */
  predicate Spares(a: Act, p: int, k: int) {
    match a
    case Call(CallMalloc(_)) => true
    case Call(CallFree(q)) => q != p
    case Call(CallRealloc(q, _)) => q != p
    case Write(q, j, _) => q != p || j != k
  }

  ghost predicate Knows(w: World, p: int, k: int, v: int) { p in w.known && k in w.known[p] && w.known[p][k] == v }

  /** A write is known. */
  lemma WriteKnown(w: World, sys: System, p: int, k: nat, v: byte)
    requires Inv(w, sys) && Legal(w, sys, Write(p, k, v))
    ensures Knows(Step(w, sys, Write(p, k, v)), p, k, v)
  {}

  /** A byte stays known through every act that spares it. */
  lemma SparedKnown(w: World, sys: System, a: Act, p: int, k: int, v: int)
    requires Inv(w, sys) && Legal(w, sys, a) && Knows(w, p, k, v) && Spares(a, p, k)
    ensures Knows(Step(w, sys, a), p, k, v)
  {
    hide Model.Malloc, Model.Inv, Model.Legal;
    if a.Call? {
      NewPointer(w.client, sys, a.call);
      Model.ZeroGivesNull(w.client.heap, sys);
    }
  }

  /** And in the object that `mm_realloc` moves it to, if that still has it. */
  lemma ReallocKnown(w: World, sys: System, p: int, size: nat, k: int, v: int)
    requires Inv(w, sys) && Legal(w, sys, Call(Model.CallRealloc(p, size))) && Knows(w, p, k, v) && k < size
    ensures var q := Model.Realloc(w.client.heap, sys, p, size).ptr;
      Knows(Step(w, sys, Call(Model.CallRealloc(p, size))), if q == 0 then p else q, k, v)
  {
    assert p != 0;
    hide Model.Malloc, Model.Inv;
    Model.ReplyExactly(w.client.heap, sys, size);
  }

  /** The client knows the last value it wrote to a byte, whatever it did to everything else since. */
  lemma {:induction false} RunKnowsLastWrite(w: World, sys: System, acts: seq<Act>, p: int, k: int, v: int)
    requires Inv(w, sys) && LegalRun(w, sys, acts) && Knows(w, p, k, v)
    requires forall j :: 0 <= j < |acts| ==> Spares(acts[j], p, k)
    ensures Knows(Run(w, sys, acts), p, k, v)
    decreases |acts|
  {
    hide Inv, Legal, Step, Knows, Spares;
    if acts != [] {
      SparedKnown(w, sys, acts[0], p, k, v);
      StepKeeps(w, sys, acts[0]);
      RunKnowsLastWrite(Step(w, sys, acts[0]), sys, acts[1..], p, k, v);
    }
  }

  // ---------------------------------------------------------------- the memory

  /** Bytes of an object lie in the payload of its block. */
  lemma InPayload(w: World, sys: System, p: int, k: int) returns (b: Block)
    requires Inv(w, sys) && p in w.known && k in w.known[p]
    ensures b in Live(w.client.heap.blocks) && b.bp == p && b.bp <= p + k < b.PayloadEnd()
  {
    assert 0 <= k < w.client.owned[p];
    b := Model.BlockOf(w.client, p);
  }

  /** Objects whose payloads are kept keep what is known about them. */
  lemma StillAgrees(m: seq<byte>, m': seq<byte>, w: World, sys: System, some: set<Block>, w': World)
    requires Inv(w, sys) && Agrees(m, w) && PayloadsKept(m, m', some) && |m| == |m'|
    requires forall p :: p in w'.known && w'.known[p] != map[] ==>
      p in w.known && w'.known[p] == w.known[p] && forall b :: b in Live(w.client.heap.blocks) && b.bp == p ==> b in some
    ensures Agrees(m', w')
  {
    forall p, k | p in w'.known && k in w'.known[p] ensures 0 <= p + k < |m'| && m'[p + k] == w'.known[p][k] {
      var b := InPayload(w, sys, p, k);
      assert PayloadSame(m, m', b);
    }
  }

  /** One act on the running allocator. */
  method Perform(a: FirstFit.Allocator, act: Act, ghost w: World)
    requires a.Valid() && w.client.heap == a.State() && Inv(w, a.Sys()) && Legal(w, a.Sys(), act)
    requires Agrees(a.mem[..], w)
    modifies a`brk, a`blocks, a`heapListp, a.mem
    ensures a.Valid() && Step(w, a.Sys(), act).client.heap == a.State()
    ensures Agrees(a.mem[..], Step(w, a.Sys(), act))
  {
    hide Encodes, Coalesced, Model.Malloc, Model.Free, PayloadsKept, Model.Init, Adjust, ToInt32, Agrees;
    ghost var m, sys, h := a.mem[..], a.Sys(), a.State();
    ghost var w' := Step(w, sys, act);
    match act
    case Write(p, k, v) =>
      Store(a, p, k, v, w);
    case Call(c) =>
      NewPointer(w.client, sys, c);
      match c {
        case CallMalloc(size) =>
          Model.ReplyExactly(h, sys, size);
          FirstFit.AskedStays(h, sys, size);
          var _ := a.Malloc(size);
          StillAgrees(m, a.mem[..], w, sys, Live(h.blocks), w');
        case CallFree(p) =>
          a.Free(p);
          StillAgrees(m, a.mem[..], w, sys, (set b | b in Live(h.blocks) && b.bp != p), w');
        case CallRealloc(p, size) =>
          FirstFit.ReallocIsStep(w.client, sys, p, size);
          var q := a.Realloc(p, size);
          Moved(m, a.mem[..], w, sys, p, size);
      }
  }

  /** A client's write into one of its objects. */
  method Store(a: FirstFit.Allocator, p: int, k: nat, v: byte, ghost w: World)
    requires a.Valid() && w.client.heap == a.State() && Inv(w, a.Sys())
    requires p in w.client.owned && k < w.client.owned[p] && Agrees(a.mem[..], w)
    modifies a.mem
    ensures a.Valid() && Agrees(a.mem[..], Step(w, a.Sys(), Write(p, k, v)))
  {
    hide Encodes, Coalesced, PayloadsKept, Model.Backed;
    ghost var m, b := a.mem[..], Model.BlockOf(w.client, p);
    Model.LiveInside(w.client.heap, b) by { EncodedBounds(m, a.blocks, a.brk); }
    a.mem[p + k] := v;
    FirstFit.PayloadWritten(m, a.mem[..], a.State(), b);
    Written(m, a.mem[..], w, a.Sys(), p, k, v);
  }

  /** Overwriting one byte changes the knowledge of that byte only: the objects do not overlap. */
  lemma Written(m: seq<byte>, m': seq<byte>, w: World, sys: System, p: int, k: nat, v: byte)
    requires Inv(w, sys) && Agrees(m, w) && p in w.client.owned && k < w.client.owned[p]
    requires 0 <= p + k < |m| == |m'| && m' == m[p + k := v]
    ensures Agrees(m', Step(w, sys, Write(p, k, v)))
  {
    hide Model.Backed, Model.BlockOf;
    var w' := Step(w, sys, Write(p, k, v));
    forall q, j | q in w'.known && j in w'.known[q] ensures 0 <= q + j < |m'| && m'[q + j] == w'.known[q][j] {
      if q != p {
        assert 0 <= j < w.client.owned[q];
        var b, c := Model.BlockOf(w.client, p), Model.BlockOf(w.client, q);
        Model.LiveApart(w.client.heap, b, c);
      }
    }
  }

  /** A known byte of the old object is in the new one. */
  lemma CopiedByte(m: seq<byte>, m': seq<byte>, w: World, sys: System, p: int, q: int, size: nat, k: int)
    requires Inv(w, sys) && Agrees(m, w) && |m| == |m'| && p in w.known && k in w.known[p] && k < size
    requires var n := Min(size, FirstFit.PayloadSize(w.client.heap.blocks, p));
      0 <= q <= q + n <= |m| && 0 <= p <= p + n <= |m| && m'[q..q + n] == m[p..p + n]
    ensures 0 <= q + k < |m'| && m'[q + k] == w.known[p][k]
  {
    var b := InPayload(w, sys, p, k);
    PayloadOf(w.client.heap, b);
    var n := Min(size, b.size - 8);
    assert m'[q..q + n][k] == m[p..p + n][k];
  }

  /** What is known after `mm_realloc` is in memory. */
  lemma Moved(m: seq<byte>, m': seq<byte>, w: World, sys: System, p: int, size: nat)
    requires Inv(w, sys) && Agrees(m, w) && Model.LegalPointer(w.client, p) && Model.LegalSize(w.client, sys, size) && |m| == |m'|
    requires var q := Model.Realloc(w.client.heap, sys, p, size).ptr;
      && (q != 0 ==> q !in w.client.owned && q != p && size > 0)
      && (q == 0 && p != 0 && size != 0 ==> m' == m)
      && (q != 0 && p != 0 ==>
            var n := Min(size, FirstFit.PayloadSize(w.client.heap.blocks, p));
            0 <= q <= q + n <= |m| && 0 <= p <= p + n <= |m| && m'[q..q + n] == m[p..p + n])
    requires PayloadsKept(m, m', set b | b in Live(w.client.heap.blocks) && b.bp != p)
    ensures Agrees(m', Step(w, sys, Call(Model.CallRealloc(p, size))))
  {
    hide Model.Malloc, Model.Free, PayloadsKept, Tiles, Coalesced, Holds;
    Model.ReplyExactly(w.client.heap, sys, size);
    var q := Model.Realloc(w.client.heap, sys, p, size).ptr;
    var rest := w.(known := w.known - {p});
    StillAgrees(m, m', w, sys, (set b | b in Live(w.client.heap.blocks) && b.bp != p), rest);
    assert 0 !in w.known;
    if q != 0 {
      var bytes := Kept(w.known, p, size);
      forall k: int | k in bytes ensures 0 <= q + k < |m'| && m'[q + k] == bytes[k] {
        CopiedByte(m, m', w, sys, p, q, size, k);
      }
      HoldsAlso(m', rest.known, q, bytes);
    } else if size != 0 && p == 0 {
      assert w.known - {p} == w.known;
    }
  }

  lemma HoldsAlso(m: seq<byte>, known: map<int, map<int, int>>, q: int, bytes: map<int, int>)
    requires Holds(m, known) && forall k: int :: k in bytes ==> 0 <= q + k < |m| && m[q + k] == bytes[k]
    ensures Holds(m, known[q := bytes])
  {}

  lemma PayloadOf(h: Heap, b: Block)
    requires WellFormed(h) && b in h.blocks
    ensures FirstFit.PayloadSize(h.blocks, b.bp) == b.size - 8
  {
    PointerFinds(h, b);
  }

  /**
   Any run of calls and writes from a fresh heap: in the end every byte the client knows is in
   memory where the object's pointer says.
   */
  method Play(sys: System, acts: seq<Act>) returns (a: FirstFit.Allocator)
    requires Sane(sys) && LegalRun(World(Model.START, map[]), sys, acts)
    ensures fresh(a) && a.Valid() && a.Sys() == sys
    ensures Run(World(Model.START, map[]), sys, acts).client.heap == a.State()
    ensures Agrees(a.mem[..], Run(World(Model.START, map[]), sys, acts))
  {
    a := new FirstFit.Allocator(sys);
    ghost var start := World(Model.START, map[]);
    ghost var w := start;
    assert Live(w.client.heap.blocks) == {};
    hide Encodes, Coalesced, Inv, Agrees, Legal, Step;
    assert Inv(w, sys) by { StartInv(sys); }
    assert Agrees(a.mem[..], w) by { NothingKnown(a.mem[..]); }
    for i := 0 to |acts|
      invariant a.Valid() && a.Sys() == sys && fresh(a) && fresh(a.mem) && w.client.heap == a.State()
      invariant Inv(w, sys) && Agrees(a.mem[..], w)
      invariant LegalRun(w, sys, acts[i..]) && Run(w, sys, acts[i..]) == Run(start, sys, acts)
    {
      assert acts[i..][0] == acts[i] && acts[i..][1..] == acts[i + 1..];
      StepKeeps(w, sys, acts[i]);
      Perform(a, acts[i], w);
      w := Step(w, sys, acts[i]);
    }
    assert acts[|acts|..] == [];
  }

  lemma StartInv(sys: System)
    requires Sane(sys)
    ensures Inv(World(Model.START, map[]), sys)
  {
    assert Live(Model.START.heap.blocks) == {};
  }

  lemma NothingKnown(m: seq<byte>)
    ensures Agrees(m, World(Model.START, map[]))
  {}
}
