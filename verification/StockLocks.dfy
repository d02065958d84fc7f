/**
 The threaded stock server's `show`, `sell` and `buy` as a system of steps over `reader_n`,
 `writer_n`, the stocks' counts and their semaphores: any number of threads, one atomic step per
 semaphore operation, load or store.
 */
module StockLocks {
  import opened Machine
  import Threads

  /** A `sell` (delta of its sign) or a `buy` (negated) of the stock with this id. */
  datatype Order = Order(id: int32, delta: int32)

  /** What `modify` reports back. */
  datatype Verdict = Applied(at: nat, delta: int) | NotFound | NotEnough

  /** Thread `i`'s answer to an order. */
  datatype Reply = Reply(i: nat, o: Order, v: Verdict)

  datatype Pc =
    | Idle
    // show
    | RSpin | RLock | RLoad | RBump(seen: int) | RUnlock | RShow
    | RLock2 | RLoad2 | RDrop(seen: int) | RUnlock2
    // sell and buy, with modify in the middle
    | WLock(o: Order) | WLoad(o: Order) | WBump(o: Order, seen: int) | WUnlock(o: Order)
    | WSpin(o: Order) | WFind(o: Order) | WCheck(o: Order, at: nat)
    | NLock(o: Order, at: nat) | NLoad(o: Order, at: nat) | NStore(o: Order, at: nat, seen: int) | NUnlock(o: Order, at: nat)
    | WLock2(o: Order, v: Verdict) | WLoad2(o: Order, v: Verdict) | WDrop(o: Order, v: Verdict, seen: int) | WUnlock2(o: Order, v: Verdict)

  datatype State = State(
    ids: seq<int>, initial: seq<int>,
    counts: seq<int>, locks: seq<nat>,
    readerN: int, writerN: int, readerMutex: nat, writerMutex: nat,
    threads: seq<Pc>,
    replies: seq<Reply>)  // history: what each thread sent back to its clients

  ghost predicate Sized(s: State) {
    |s.ids| == |s.initial| == |s.counts| == |s.locks|
  }

  /** The number is an `int`. */
  predicate Fits(n: int) { INT_MIN <= n <= INT_MAX }

  ghost predicate Initial(s: State) {
    && Sized(s) && s.counts == s.initial && (forall k :: 0 <= k < |s.counts| ==> Fits(s.counts[k]))
    && (forall k :: 0 <= k < |s.locks| ==> s.locks[k] == 1)
    && s.readerN == s.writerN == 0 && s.readerMutex == s.writerMutex == 1
    && (forall i :: 0 <= i < |s.threads| ==> s.threads[i] == Idle)
    && s.replies == []
  }

  /** The first position with this id, or the number of stocks if there is none. */
  function Lookup(ids: seq<int>, id: int): (k: nat)
    ensures k <= |ids| && (k < |ids| ==> ids[k] == id)
    ensures forall j :: 0 <= j < k ==> ids[j] != id
  {
    if ids == [] || ids[0] == id then 0 else 1 + Lookup(ids[1..], id)
  }

  datatype Action = StartShow(i: nat) | StartOrder(i: nat, o: Order) | Advance(i: nat)

  /** What can happen next.  A sum that is no `int` is undefined in C, and the step that forms it is none here. */
  predicate Enabled(s: State, a: Action) {
    match a
    case StartShow(i) => i < |s.threads| && s.threads[i] == Idle
    case StartOrder(i, _) => i < |s.threads| && s.threads[i] == Idle
    case Advance(i) =>
      && i < |s.threads|
      && |s.ids| == |s.counts| == |s.locks|
      && match s.threads[i]
         case Idle => false
         case RLock => s.readerMutex > 0
         case RLock2 => s.readerMutex > 0
         case WLock(_) => s.writerMutex > 0
         case WLock2(_, _) => s.writerMutex > 0
         case WCheck(o, at) => at < |s.ids| && Fits(s.counts[at] + o.delta)
         case NLock(_, at) => at < |s.ids| && s.locks[at] > 0
         case NLoad(_, at) => at < |s.ids|
         case NStore(o, at, seen) => at < |s.ids| && Fits(seen + o.delta)
         case NUnlock(_, at) => at < |s.ids|
         case _ => true
  }

  function At(s: State, i: nat, pc: Pc): State
    requires i < |s.threads|
  {
    s.(threads := s.threads[i := pc])
  }

  function Next(s: State, i: nat): State
    requires Enabled(s, Advance(i))
  {
    match s.threads[i]
    case RSpin => if s.writerN != 0 then s else At(s, i, RLock)
    case RLock => At(s.(readerMutex := s.readerMutex - 1), i, RLoad)
    case RLoad => At(s, i, RBump(s.readerN))
    case RBump(seen) => At(s.(readerN := seen + 1), i, RUnlock)
    case RUnlock => At(s.(readerMutex := s.readerMutex + 1), i, RShow)
    case RShow => At(s, i, RLock2)
    case RLock2 => At(s.(readerMutex := s.readerMutex - 1), i, RLoad2)
    case RLoad2 => At(s, i, RDrop(s.readerN))
    case RDrop(seen) => At(s.(readerN := seen - 1), i, RUnlock2)
    case RUnlock2 => At(s.(readerMutex := s.readerMutex + 1), i, Idle)
    case WLock(o) => At(s.(writerMutex := s.writerMutex - 1), i, WLoad(o))
    case WLoad(o) => At(s, i, WBump(o, s.writerN))
    case WBump(o, seen) => At(s.(writerN := seen + 1), i, WUnlock(o))
    case WUnlock(o) => At(s.(writerMutex := s.writerMutex + 1), i, WSpin(o))
    case WSpin(o) => if s.readerN != 0 then s else At(s, i, WFind(o))
    case WFind(o) =>
      var at := Lookup(s.ids, o.id);
      At(s, i, if at == |s.ids| then WLock2(o, NotFound) else WCheck(o, at))
    case WCheck(o, at) => At(s, i, if s.counts[at] + o.delta < 0 then WLock2(o, NotEnough) else NLock(o, at))
    case NLock(o, at) => At(s.(locks := s.locks[at := s.locks[at] - 1]), i, NLoad(o, at))
    case NLoad(o, at) => At(s, i, NStore(o, at, s.counts[at]))
    case NStore(o, at, seen) => At(s.(counts := s.counts[at := seen + o.delta]), i, NUnlock(o, at))
    case NUnlock(o, at) => At(s.(locks := s.locks[at := s.locks[at] + 1]), i, WLock2(o, Applied(at, o.delta)))
    case WLock2(o, v) => At(s.(writerMutex := s.writerMutex - 1), i, WLoad2(o, v))
    case WLoad2(o, v) => At(s, i, WDrop(o, v, s.writerN))
    case WDrop(o, v, seen) => At(s.(writerN := seen - 1), i, WUnlock2(o, v))
    case WUnlock2(o, v) => At(s.(writerMutex := s.writerMutex + 1, replies := s.replies + [Reply(i, o, v)]), i, Idle)
  }

  function Do(s: State, a: Action): State
    requires Enabled(s, a)
  {
    match a
    case StartShow(i) => At(s, i, RSpin)
    case StartOrder(i, o) => At(s, i, WLock(o))
    case Advance(i) => Next(s, i)
  }

  // ---------------------------------------------------------------- groups and deltas

  datatype Group = ReaderLock | WriterLock | NodeLock(k: nat) | Readers | Writers

  predicate In(g: Group, pc: Pc) {
    match g
    case ReaderLock => pc.RLoad? || pc.RBump? || pc.RUnlock? || pc.RLoad2? || pc.RDrop? || pc.RUnlock2?
    case WriterLock => pc.WLoad? || pc.WBump? || pc.WUnlock? || pc.WLoad2? || pc.WDrop? || pc.WUnlock2?
    case NodeLock(k) => (pc.NLoad? || pc.NStore? || pc.NUnlock?) && pc.at == k
    case Readers => pc.RUnlock? || pc.RShow? || pc.RLock2? || pc.RLoad2? || pc.RDrop?
    case Writers =>
      pc.WUnlock? || pc.WSpin? || pc.WFind? || pc.WCheck? || pc.NLock? || pc.NLoad? || pc.NStore? || pc.NUnlock?
      || pc.WLock2? || pc.WLoad2? || pc.WDrop?
  }

  function One(g: Group, pc: Pc): nat { Threads.One(In, g, pc) }

  function Count(g: Group, ts: seq<Pc>): nat { Threads.Count(In, g, ts) }

  lemma CountUpdate(g: Group, ts: seq<Pc>, i: nat, pc: Pc)
    requires i < |ts|
    ensures Count(g, ts[i := pc]) == Count(g, ts) - One(g, ts[i]) + One(g, pc)
    ensures Count(g, ts) >= One(g, ts[i])
  {
    Threads.CountUpdate(In, g, ts, i, pc);
  }

  function Effect(v: Verdict, k: nat): int {
    if v.Applied? && v.at == k then v.delta else 0
  }

  /** The change to stock `k` that this thread has stored but not yet reported. */
  function Unreported(pc: Pc, k: nat): int {
    match pc
    case NUnlock(o, at) => if at == k then o.delta else 0
    case WLock2(_, v) => Effect(v, k)
    case WLoad2(_, v) => Effect(v, k)
    case WDrop(_, v, _) => Effect(v, k)
    case WUnlock2(_, v) => Effect(v, k)
    case _ => 0
  }

  function Pending(ts: seq<Pc>, k: nat): int {
    if ts == [] then 0 else Unreported(ts[0], k) + Pending(ts[1..], k)
  }

  function Reported(rs: seq<Reply>, k: nat): int {
    if rs == [] then 0 else Effect(rs[|rs| - 1].v, k) + Reported(rs[..|rs| - 1], k)
  }

  lemma ReportedSnoc(rs: seq<Reply>, r: Reply, k: nat)
    ensures Reported(rs + [r], k) == Reported(rs, k) + Effect(r.v, k)
  {
    assert (rs + [r])[..|rs|] == rs;
  }

  lemma {:induction false} PendingUpdate(ts: seq<Pc>, i: nat, pc: Pc, k: nat)
    requires i < |ts|
    ensures Pending(ts[i := pc], k) == Pending(ts, k) - Unreported(ts[i], k) + Unreported(pc, k)
    decreases |ts|
  {
    var ts' := ts[i := pc];
    if i == 0 {
      assert ts'[1..] == ts[1..];
    } else {
      assert ts'[1..] == ts[1..][i - 1 := pc];
      PendingUpdate(ts[1..], i - 1, pc, k);
    }
  }

  lemma {:induction false} NothingPending(ts: seq<Pc>, k: nat)
    requires forall i :: 0 <= i < |ts| ==> Unreported(ts[i], k) == 0
    ensures Pending(ts, k) == 0
  {
    if ts != [] { NothingPending(ts[1..], k); }
  }

  // ---------------------------------------------------------------- the invariant

  ghost predicate Locked(s: State) {
    && s.readerMutex + Count(ReaderLock, s.threads) == 1
    && s.writerMutex + Count(WriterLock, s.threads) == 1
  }

  ghost predicate NodesLocked(s: State) {
    Sized(s) && forall k :: 0 <= k < |s.locks| ==> s.locks[k] + Count(NodeLock(k), s.threads) == 1
  }

  /** The two counters are the numbers of threads between their increments and decrements. */
  ghost predicate Counted(s: State) {
    s.readerN == Count(Readers, s.threads) && s.writerN == Count(Writers, s.threads)
  }

  ghost predicate Local(s: State, pc: Pc) {
    match pc
    case RBump(seen) => seen == s.readerN
    case RDrop(seen) => seen == s.readerN
    case WBump(_, seen) => seen == s.writerN
    case WDrop(_, _, seen) => seen == s.writerN
    case WCheck(_, at) => at < |s.ids|
    case NLock(_, at) => at < |s.ids|
    case NLoad(_, at) => at < |s.ids|
    case NStore(_, at, seen) => at < |s.ids| == |s.counts| && seen == s.counts[at]
    case NUnlock(_, at) => at < |s.ids|
    case _ => true
  }

  ghost predicate Locals(s: State) {
    forall i :: 0 <= i < |s.threads| ==> Local(s, s.threads[i])
  }

  /** No update is lost: every count is its initial value plus what was reported and what is still pending. */
  ghost predicate Conserved(s: State) {
    Sized(s) && forall k :: 0 <= k < |s.counts| ==>
      s.counts[k] == s.initial[k] + Reported(s.replies, k) + Pending(s.threads, k)
  }

  ghost predicate Inv(s: State) {
    Locked(s) && NodesLocked(s) && Counted(s) && Locals(s) && Conserved(s)
  }

  lemma InitialInv(s: State)
    requires Initial(s)
    ensures Inv(s)
  {
    forall g ensures Count(g, s.threads) == 0 { Threads.CountNone(In, g, s.threads); }
    forall k ensures Pending(s.threads, k) == 0 { NothingPending(s.threads, k); }
  }

  // ---------------------------------------------------------------- every step keeps it

  lemma SelfLocal(s: State, i: nat)
    requires Locals(s) && i < |s.threads|
    ensures Local(s, s.threads[i])
  {}

  /** Who holds a lock holds it alone. */
  lemma Alone(g: Group, s: State, i: nat)
    requires Count(g, s.threads) <= 1 && i < |s.threads| && In(g, s.threads[i])
    ensures forall j :: 0 <= j < |s.threads| && j != i ==> !In(g, s.threads[j])
  {
    forall j | 0 <= j < |s.threads| && j != i ensures !In(g, s.threads[j]) {
      if In(g, s.threads[j]) { Threads.CountTwo(In, g, s.threads, i, j); }
    }
  }

  lemma ThreadsAfter(s: State, i: nat)
    requires Enabled(s, Advance(i))
    ensures Next(s, i).threads == s.threads[i := Next(s, i).threads[i]]
    ensures Next(s, i).ids == s.ids && Next(s, i).initial == s.initial
    ensures |Next(s, i).counts| == |s.counts| && |Next(s, i).locks| == |s.locks|
  {}

  lemma LockedStep(s: State, i: nat)
    requires Locked(s) && Enabled(s, Advance(i))
    ensures Locked(Next(s, i))
  {
    hide Count;
    ThreadsAfter(s, i);
    CountUpdate(ReaderLock, s.threads, i, Next(s, i).threads[i]);
    CountUpdate(WriterLock, s.threads, i, Next(s, i).threads[i]);
  }

  lemma NodeStep(s: State, i: nat, k: nat)
    requires Sized(s) && k < |s.locks| && Enabled(s, Advance(i)) && s.locks[k] + Count(NodeLock(k), s.threads) == 1
    ensures Next(s, i).locks[k] + Count(NodeLock(k), Next(s, i).threads) == 1
  {
    hide Count;
    ThreadsAfter(s, i);
    CountUpdate(NodeLock(k), s.threads, i, Next(s, i).threads[i]);
  }

  lemma CountedStep(s: State, i: nat)
    requires Counted(s) && Locals(s) && Enabled(s, Advance(i))
    ensures Counted(Next(s, i))
  {
    hide Count, Locals;
    ThreadsAfter(s, i);
    SelfLocal(s, i);
    CountUpdate(Readers, s.threads, i, Next(s, i).threads[i]);
    CountUpdate(Writers, s.threads, i, Next(s, i).threads[i]);
  }

  lemma ConservedStep(s: State, i: nat, k: nat)
    requires Sized(s) && k < |s.counts| && Locals(s) && Enabled(s, Advance(i))
    requires s.counts[k] == s.initial[k] + Reported(s.replies, k) + Pending(s.threads, k)
    ensures var t := Next(s, i); t.counts[k] == t.initial[k] + Reported(t.replies, k) + Pending(t.threads, k)
  {
    hide Pending, Locals, Reported;
    ThreadsAfter(s, i);
    SelfLocal(s, i);
    PendingUpdate(s.threads, i, Next(s, i).threads[i], k);
    if s.threads[i].WUnlock2? { ReportedSnoc(s.replies, Reply(i, s.threads[i].o, s.threads[i].v), k); }
  }

  lemma LocalsStep(s: State, i: nat)
    requires Inv(s) && Enabled(s, Advance(i))
    ensures Locals(Next(s, i))
  {
    hide Count, Conserved, Counted;
    var s' := Next(s, i);
    ThreadsAfter(s, i);
    SelfLocal(s, i);
    forall j | 0 <= j < |s'.threads| ensures Local(s', s'.threads[j]) {
      SelfLocal(s, j);
      if j != i { OtherLocal(s, i, j); }
    }
  }

  lemma OtherLocal(s: State, i: nat, j: nat)
    requires Locked(s) && NodesLocked(s) && Locals(s) && Enabled(s, Advance(i)) && j < |s.threads| && j != i
    ensures Local(Next(s, i), s.threads[j])
  {
    hide Count;
    var pc := s.threads[i];
    SelfLocal(s, j);
    if In(ReaderLock, pc) { Alone(ReaderLock, s, i); }
    if In(WriterLock, pc) { Alone(WriterLock, s, i); }
    if pc.NStore? { Alone(NodeLock(pc.at), s, i); }
  }

  lemma StepKeeps(s: State, a: Action)
    requires Inv(s) && Enabled(s, a)
    ensures Inv(Do(s, a))
  {
    hide Count, Pending, Next, Reported, Locals, Locked, Counted;
    match a
    case StartShow(i) => StartStep(s, i, RSpin);
    case StartOrder(i, o) => StartStep(s, i, WLock(o));
    case Advance(i) =>
      ThreadsAfter(s, i);
      LockedStep(s, i);
      CountedStep(s, i);
      LocalsStep(s, i);
      forall k: nat | k < |s.locks|
        ensures Next(s, i).locks[k] + Count(NodeLock(k), Next(s, i).threads) == 1
      {
        NodeStep(s, i, k);
      }
      forall k: nat | k < |s.counts|
        ensures var t := Next(s, i); t.counts[k] == t.initial[k] + Reported(t.replies, k) + Pending(t.threads, k)
      {
        ConservedStep(s, i, k);
      }
  }

  lemma StartStep(s: State, i: nat, pc: Pc)
    requires Inv(s) && i < |s.threads| && s.threads[i] == Idle && (pc.RSpin? || pc.WLock?)
    ensures Inv(At(s, i, pc))
  {
    hide Count, Pending, Reported;
    var s' := At(s, i, pc);
    forall g ensures Count(g, s'.threads) == Count(g, s.threads) { CountUpdate(g, s.threads, i, pc); }
    forall k ensures Pending(s'.threads, k) == Pending(s.threads, k) { PendingUpdate(s.threads, i, pc, k); }
    forall j | 0 <= j < |s'.threads| ensures Local(s', s'.threads[j]) { SelfLocal(s, j); }
  }

  // ---------------------------------------------------------------- whole runs

  ghost predicate CanRun(s: State, acts: seq<Action>)
    decreases |acts|
  {
    acts == [] || (Enabled(s, acts[0]) && CanRun(Do(s, acts[0]), acts[1..]))
  }

  function Run(s: State, acts: seq<Action>): State
    requires CanRun(s, acts)
    decreases |acts|
  {
    if acts == [] then s else Run(Do(s, acts[0]), acts[1..])
  }

  lemma DoFixed(s: State, a: Action)
    requires Enabled(s, a)
    ensures Do(s, a).ids == s.ids && Do(s, a).initial == s.initial && |Do(s, a).threads| == |s.threads|
  {}

  lemma {:induction false} RunKeeps(s: State, acts: seq<Action>)
    requires Inv(s) && CanRun(s, acts)
    ensures Inv(Run(s, acts)) && Run(s, acts).initial == s.initial && |Run(s, acts).threads| == |s.threads|
    decreases |acts|
  {
    hide Inv, Do, Enabled;
    if acts != [] {
      StepKeeps(s, acts[0]);
      DoFixed(s, acts[0]);
      RunKeeps(Do(s, acts[0]), acts[1..]);
    }
  }

  /** In every interleaving, once no update is between its store and its reply, no update is lost. */
  lemma RunLosesNothing(s: State, acts: seq<Action>, k: nat)
    requires Initial(s) && CanRun(s, acts) && k < |s.initial|
    requires forall i :: 0 <= i < |Run(s, acts).threads| ==> Unreported(Run(s, acts).threads[i], k) == 0
    ensures k < |Run(s, acts).counts| && Run(s, acts).counts[k] == s.initial[k] + Reported(Run(s, acts).replies, k)
  {
    hide Locked, NodesLocked, Locals, Counted;
    InitialInv(s);
    RunKeeps(s, acts);
    NothingPending(Run(s, acts).threads, k);
  }

  /** In every interleaving the counters are exact, and every lock has at most one holder. */
  lemma RunCountsAndLocks(s: State, acts: seq<Action>)
    requires Initial(s) && CanRun(s, acts)
    ensures var t := Run(s, acts);
      && t.readerN == Count(Readers, t.threads) && t.writerN == Count(Writers, t.threads)
      && (forall i, j, k :: 0 <= i < |t.threads| && 0 <= j < |t.threads| && i != j && 0 <= k < |t.ids| ==>
            !(In(NodeLock(k), t.threads[i]) && In(NodeLock(k), t.threads[j])))
  {
    hide Locals, Conserved;
    InitialInv(s);
    RunKeeps(s, acts);
    var t := Run(s, acts);
    forall i, j, k | 0 <= i < |t.threads| && 0 <= j < |t.threads| && i != j && 0 <= k < |t.ids|
      ensures !(In(NodeLock(k), t.threads[i]) && In(NodeLock(k), t.threads[j]))
    {
      if In(NodeLock(k), t.threads[i]) { Alone(NodeLock(k), t, i); }
    }
  }

  /**
   In every reachable state a thread that wants to print passes its wait exactly if no thread is between
   entering and leaving `sell` or `buy`, and a thread in these passes exactly if none is between entering
   and leaving `show`.
   */
  lemma RunWaitsExactly(s: State, acts: seq<Action>, i: nat)
    requires Initial(s) && CanRun(s, acts) && Enabled(Run(s, acts), Advance(i))
    ensures var t := Run(s, acts);
      && (t.threads[i].RSpin? ==> (Next(t, i).threads[i] == RLock <==> forall j :: 0 <= j < |t.threads| ==> !In(Writers, t.threads[j])))
      && (t.threads[i].RSpin? && Next(t, i).threads[i] != RLock ==> Next(t, i) == t)
      && (t.threads[i].WSpin? ==>
            (Next(t, i).threads[i] == WFind(t.threads[i].o) <==> forall j :: 0 <= j < |t.threads| ==> !In(Readers, t.threads[j])))
      && (t.threads[i].WSpin? && Next(t, i).threads[i] != WFind(t.threads[i].o) ==> Next(t, i) == t)
  {
    hide Count, Conserved, Locals, Locked, NodesLocked, Run, CanRun, Initial, In;
    InitialInv(s);
    RunKeeps(s, acts);
    var t := Run(s, acts);
    NoneExactly(Writers, t.threads);
    NoneExactly(Readers, t.threads);
  }

  lemma NoneExactly(g: Group, ts: seq<Pc>)
    ensures Count(g, ts) == 0 <==> forall j :: 0 <= j < |ts| ==> !In(g, ts[j])
  {
    if j :| 0 <= j < |ts| && In(g, ts[j]) {
      CountUpdate(g, ts, j, ts[j]);
    } else {
      Threads.CountNone(In, g, ts);
    }
  }

  // ---------------------------------------------------------------- no deadlock, no endless spinning

  /** No thread can do anything but spin. */
  ghost predicate Stuck(s: State) {
    forall i :: 0 <= i < |s.threads| && Enabled(s, Advance(i)) ==> Next(s, i) == s
  }

  /** The thread is about to form a sum that is no `int`. */
  predicate Overflows(s: State, pc: Pc) {
    || (pc.WCheck? && pc.at < |s.counts| && !Fits(s.counts[pc.at] + pc.o.delta))
    || (pc.NStore? && !Fits(pc.seen + pc.o.delta))
  }

  ghost predicate NoneOverflows(s: State) { forall i :: 0 <= i < |s.threads| ==> !Overflows(s, s.threads[i]) }

  /** A stuck thread is idle, spinning, or waiting for a lock somebody holds. */
  lemma StuckThread(s: State, i: nat)
    requires Inv(s) && Stuck(s) && NoneOverflows(s) && i < |s.threads|
    ensures var pc := s.threads[i];
      || pc.Idle? || (pc.RSpin? && s.writerN != 0) || (pc.WSpin? && s.readerN != 0)
      || ((pc.RLock? || pc.RLock2?) && s.readerMutex == 0)
      || ((pc.WLock? || pc.WLock2?) && s.writerMutex == 0)
      || (pc.NLock? && pc.at < |s.locks| && s.locks[pc.at] == 0)
  {
    hide Locked, Counted, Conserved, Locals, Count;
    SelfLocal(s, i);
    assert !Overflows(s, s.threads[i]);
    if Enabled(s, Advance(i)) {
      assert Next(s, i).threads[i] == s.threads[i];
    }
  }

  lemma StuckGroup(s: State, g: Group)
    requires Inv(s) && Stuck(s) && NoneOverflows(s)
    requires g == ReaderLock || g == WriterLock || g.NodeLock?
      || (s.readerMutex == 1 && s.writerMutex == 1 && (forall k :: 0 <= k < |s.locks| ==> s.locks[k] == 1)
          && (g == Readers || (g == Writers && s.readerN == 0)))
    ensures Count(g, s.threads) == 0
  {
    hide Locked, Counted, Conserved, Locals, Next;
    forall i | 0 <= i < |s.threads| ensures !In(g, s.threads[i]) { StuckThread(s, i); }
    Threads.CountNone(In, g, s.threads);
  }

  /** Whatever the interleaving, as long as some thread is inside a command and none overflows some thread can get on. */
  lemma RunNeverStuck(s: State, acts: seq<Action>)
    requires Initial(s) && CanRun(s, acts) && Stuck(Run(s, acts)) && NoneOverflows(Run(s, acts))
    ensures forall i :: 0 <= i < |Run(s, acts).threads| ==> Run(s, acts).threads[i] == Idle
  {
    hide Count, Conserved, Locals, Stuck, NoneOverflows;
    InitialInv(s);
    RunKeeps(s, acts);
    var t := Run(s, acts);
    StuckGroup(t, ReaderLock);
    StuckGroup(t, WriterLock);
    forall k: nat | k < |t.locks| ensures t.locks[k] == 1 { StuckGroup(t, NodeLock(k)); }
    StuckGroup(t, Readers);
    StuckGroup(t, Writers);
    forall i | 0 <= i < |t.threads| ensures t.threads[i] == Idle { StuckThread(t, i); }
  }

  // ---------------------------------------------------------------- when counts stay non-negative

  ghost predicate NonNegative(s: State) {
    forall k :: 0 <= k < |s.counts| ==> s.counts[k] >= 0
  }

  /** What the check in `modify` guarantees as long as nobody else writes. */
  ghost predicate Checked(s: State, pc: Pc) {
    match pc
    case NLock(o, at) => at < |s.counts| && s.counts[at] + o.delta >= 0
    case NLoad(o, at) => at < |s.counts| && s.counts[at] + o.delta >= 0
    case NStore(o, at, seen) => seen + o.delta >= 0
    case _ => true
  }

  ghost predicate Solo(s: State) {
    && |s.threads| <= 1 && NonNegative(s)
    && forall i :: 0 <= i < |s.threads| ==> Checked(s, s.threads[i])
  }

  lemma {:induction false} SoloRun(s: State, acts: seq<Action>)
    requires Inv(s) && Solo(s) && CanRun(s, acts)
    ensures Solo(Run(s, acts))
    decreases |acts|
  {
    hide Inv;
    if acts != [] {
      SoloStep(s, acts[0]);
      StepKeeps(s, acts[0]);
      SoloRun(Do(s, acts[0]), acts[1..]);
    }
  }

  lemma SoloStep(s: State, a: Action)
    requires Inv(s) && Solo(s) && Enabled(s, a)
    ensures Solo(Do(s, a))
  {
    hide Locked, NodesLocked, Counted, Conserved;
    if a.Advance? { SelfLocal(s, a.i); }
  }

  predicate ModestAction(a: Action, most: nat) { a.StartOrder? ==> a.o.delta + most >= 0 }

  /** The orders of a run take at most `most` shares each. */
  ghost predicate ModestRun(acts: seq<Action>, most: nat) {
    forall j :: 0 <= j < |acts| ==> ModestAction(acts[j], most)
  }

  /** Some run from `s` with orders for at most `most` shares ends in `t`. */
  ghost predicate Reaches(s: State, t: State, most: nat) {
    exists acts :: CanRun(s, acts) && Run(s, acts) == t && ModestRun(acts, most)
  }

  lemma {:induction false} RunSnoc(s: State, acts: seq<Action>, a: Action)
    requires CanRun(s, acts) && Enabled(Run(s, acts), a)
    ensures CanRun(s, acts + [a]) && Run(s, acts + [a]) == Do(Run(s, acts), a)
    decreases |acts|
  {
    hide Do, Enabled;
    if acts == [] {
      assert (acts + [a])[1..] == [];
    } else {
      RunSnoc(Do(s, acts[0]), acts[1..], a);
      assert (acts + [a])[1..] == acts[1..] + [a];
    }
  }

  lemma ReachesSelf(s: State, most: nat)
    ensures Reaches(s, s, most)
  {
    assert CanRun(s, []) && Run(s, []) == s && ModestRun([], most);
  }

  lemma ReachesMore(s: State, t: State, a: Action, most: nat) returns (t': State)
    requires Reaches(s, t, most) && Enabled(t, a) && ModestAction(a, most)
    ensures t' == Do(t, a) && Reaches(s, t', most)
  {
    hide Do, Enabled;
    var acts :| CanRun(s, acts) && Run(s, acts) == t && ModestRun(acts, most);
    RunSnoc(s, acts, a);
    t' := Do(t, a);
    assert ModestRun(acts + [a], most);
  }

  /** One thread alone takes an order from its start to its lookup, as long as nobody prints. */
  lemma Enter(s: State, t: State, i: nat, o: Order, most: nat) returns (t': State)
    requires Reaches(s, t, most) && o.delta + most >= 0 && Sized(t)
    requires i < |t.threads| && t.threads[i] == Idle && t.writerMutex == 1 && t.readerN == 0
    ensures Reaches(s, t', most) && t' == t.(writerN := t.writerN + 1, threads := t.threads[i := WFind(o)])
  {
    hide Reaches, CanRun, Run;
    t' := ReachesMore(s, t, StartOrder(i, o), most);
    t' := ReachesMore(s, t', Advance(i), most);
    t' := ReachesMore(s, t', Advance(i), most);
    t' := ReachesMore(s, t', Advance(i), most);
    assert t' == t.(writerMutex := 0, writerN := t.writerN + 1, threads := t.threads[i := WUnlock(o)]);
    t' := ReachesMore(s, t', Advance(i), most);
    t' := ReachesMore(s, t', Advance(i), most);
    assert t'.threads == t.threads[i := WFind(o)];
  }

  /** And on to just before the lock of the only stock. */
  lemma Approach(s: State, t: State, i: nat, o: Order, most: nat) returns (t': State)
    requires Reaches(s, t, most) && o.delta + most >= 0 && Sized(t) && t.ids == [o.id] && 0 <= t.counts[0] + o.delta <= INT_MAX
    requires i < |t.threads| && t.threads[i] == Idle && t.writerMutex == 1 && t.readerN == 0
    ensures Reaches(s, t', most) && t' == t.(writerN := t.writerN + 1, threads := t.threads[i := NLock(o, 0)])
  {
    hide Reaches, CanRun, Run;
    t' := Enter(s, t, i, o, most);
    t' := ReachesMore(s, t', Advance(i), most);
    assert Lookup(t.ids, o.id) == 0;
    t' := ReachesMore(s, t', Advance(i), most);
    assert t'.threads == t.threads[i := NLock(o, 0)];
  }

  /** From just before the lock of stock `at` to just after it. */
  lemma Apply(s: State, t: State, i: nat, o: Order, at: nat, most: nat) returns (t': State)
    requires Reaches(s, t, most) && Sized(t) && at < |t.ids| && t.locks[at] == 1 && i < |t.threads| && t.threads[i] == NLock(o, at)
    requires Fits(t.counts[at] + o.delta)
    ensures Reaches(s, t', most)
    ensures t' == t.(counts := t.counts[at := t.counts[at] + o.delta], threads := t.threads[i := WLock2(o, Applied(at, o.delta))])
  {
    hide Reaches, CanRun, Run;
    t' := ReachesMore(s, t, Advance(i), most);
    t' := ReachesMore(s, t', Advance(i), most);
    assert t' == t.(locks := t.locks[at := 0], threads := t.threads[i := NStore(o, at, t.counts[at])]);
    t' := ReachesMore(s, t', Advance(i), most);
    assert t'.threads == t.threads[i := NUnlock(o, at)];
    t' := ReachesMore(s, t', Advance(i), most);
    assert t'.threads == t.threads[i := WLock2(o, Applied(at, o.delta))];
    assert t'.locks == t.locks;
  }

  /** One share left, two threads buying it. */
  function OneShare(threads: nat): State {
    State([7], [1], [1], [1], 0, 0, 1, 1, seq(threads, _ => Idle), [])
  }

  lemma TwoBuyersOversell(threads: nat)
    requires threads >= 2
    ensures Initial(OneShare(threads)) && |OneShare(threads).threads| == threads && NonNegative(OneShare(threads))
    ensures exists t :: Reaches(OneShare(threads), t, 1) && !NonNegative(t)
  {
    hide Reaches, CanRun, Run;
    var s, o, most := OneShare(threads), Order(7, -1), 1;
    ReachesSelf(s, most);
    var t := Approach(s, s, 0, o, most);
    t := Approach(s, t, 1, o, most);
    t := Apply(s, t, 0, o, 0, most);
    t := Apply(s, t, 1, o, 0, most);
    assert t.counts[0] == -1;
  }

  ghost predicate NeverOversold(threads: nat) {
    forall s, acts :: Initial(s) && |s.threads| == threads && NonNegative(s) && CanRun(s, acts) ==> NonNegative(Run(s, acts))
  }

  /** Counts stay non-negative in all runs exactly when there is at most one thread: the check is not under the lock. */
  lemma NonNegativeExactly(threads: nat)
    ensures NeverOversold(threads) <==> threads <= 1
  {
    if threads <= 1 {
      forall s, acts | Initial(s) && |s.threads| == threads && NonNegative(s) && CanRun(s, acts)
        ensures NonNegative(Run(s, acts))
      {
        InitialInv(s);
        SoloRun(s, acts);
      }
    } else {
      var s := OneShare(threads);
      TwoBuyersOversell(threads);
      hide OneShare, Initial, NonNegative;
      var t :| Reaches(s, t, 1) && !NonNegative(t);
      var acts :| CanRun(s, acts) && Run(s, acts) == t && ModestRun(acts, 1);
      assert !(CanRun(s, acts) ==> NonNegative(Run(s, acts)));
    }
  }

  // ---------------------------------------------------------------- when readers and writers exclude each other

  /** A thread is printing the tree while another is inside `modify`, past its wait for readers. */
  ghost predicate Overlaps(s: State) {
    exists i, j :: 0 <= i < |s.threads| && 0 <= j < |s.threads| && s.threads[i].RShow?
      && (s.threads[j].NLock? || s.threads[j].NLoad? || s.threads[j].NStore? || s.threads[j].NUnlock?)
  }

  ghost predicate NeverOverlaps(threads: nat) {
    forall s, acts :: Initial(s) && |s.threads| == threads && CanRun(s, acts) ==> !Overlaps(Run(s, acts))
  }

  lemma ReaderAndWriterMeet(threads: nat)
    requires threads >= 2
    ensures exists t :: Reaches(OneShare(threads), t, 1) && Overlaps(t)
  {
    hide Reaches, CanRun, Run;
    var s, o, most := OneShare(threads), Order(7, -1), 1;
    ReachesSelf(s, most);
    var t := ReachesMore(s, s, StartShow(0), most);
    t := ReachesMore(s, t, Advance(0), most);
    t := Approach(s, t, 1, o, most);
    t := ReachesMore(s, t, Advance(0), most);
    t := ReachesMore(s, t, Advance(0), most);
    t := ReachesMore(s, t, Advance(0), most);
    t := ReachesMore(s, t, Advance(0), most);
    assert t.threads[0].RShow? && t.threads[1].NLock?;
  }

  /** The busy waits keep readers and writers apart exactly when there is at most one thread. */
  lemma ExclusionExactly(threads: nat)
    ensures NeverOverlaps(threads) <==> threads <= 1
  {
    if threads <= 1 {
      forall s, acts | Initial(s) && |s.threads| == threads && CanRun(s, acts)
        ensures !Overlaps(Run(s, acts))
      {
        InitialInv(s);
        RunKeeps(s, acts);
      }
    } else {
      var s := OneShare(threads);
      TwoBuyersOversell(threads);
      ReaderAndWriterMeet(threads);
      hide OneShare, Initial, Overlaps;
      var t :| Reaches(s, t, 1) && Overlaps(t);
      var acts :| CanRun(s, acts) && Run(s, acts) == t && ModestRun(acts, 1);
      assert !(CanRun(s, acts) ==> !Overlaps(Run(s, acts)));
    }
  }
}