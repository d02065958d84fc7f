/**
 The bounded buffer of waiting connections and the mutex hand-off to the sync signal handler, as a
 system of steps: any number of threads, one atomic step per semaphore operation, load or store.
 An idle thread may start an insertion, a removal or a sync at any time.
 */
module ConnBuffer {
  import Powers
  import Threads

  datatype Conn = Conn(fd: int, addr: int)

  /** Where a thread is in `sbuf_insert`, `sbuf_remove` or the sync branch of `network_worker`. */
  datatype Pc =
    | Idle
    | InsSlot(item: Conn)                // about to wait for an empty slot
    | InsLock(item: Conn)
    | InsLoad(item: Conn)
    | InsBump(item: Conn, seen: nat)     // about to store the incremented rear
    | InsFd(item: Conn, at: nat)
    | InsAddr(item: Conn)
    | InsUnlock(item: Conn)
    | InsPost(item: Conn)
    | RemItem                            // about to wait for an item
    | RemLock
    | RemLoad
    | RemBump(seen: nat)
    | RemFd(at: nat)
    | RemAddr(fd: int)
    | RemUnlock(got: Conn)
    | RemPost(got: Conn)
    | SyncLock
    | SyncKill

  datatype State = State(
    n: nat, slots: seq<Conn>, front: nat, rear: nat,
    mutex: nat, emptySlots: nat, items: nat,
    threads: seq<Pc>,
    handlers: nat,             // sync signals sent whose handler has not yet released the mutex
    entered: seq<Conn>,        // history: connections in the order they got a position
    left: seq<Conn>,           // history: connections in the order they were read out
    returned: multiset<Conn>)  // history: what calls of sbuf_remove have returned

  datatype Action =
    | StartInsert(i: nat, item: Conn)
    | StartRemove(i: nat)
    | StartSync(i: nat)
    | Advance(i: nat)
    | Handler

  ghost predicate Initial(s: State) {
    && 0 < s.n == |s.slots| && s.front == s.rear == 0
    && s.mutex == 1 && s.emptySlots == s.n && s.items == 0
    && (forall i :: 0 <= i < |s.threads| ==> s.threads[i] == Idle)
    && s.handlers == 0 && s.entered == [] && s.left == [] && s.returned == multiset{}
  }

  predicate Enabled(s: State, a: Action) {
    match a
    case StartInsert(i, _) => i < |s.threads| && s.threads[i] == Idle
    case StartRemove(i) => i < |s.threads| && s.threads[i] == Idle
    case StartSync(i) => i < |s.threads| && s.threads[i] == Idle
    case Handler => s.handlers > 0
    case Advance(i) =>
      && i < |s.threads| && 0 < s.n == |s.slots|
      && match s.threads[i]
         case Idle => false
         case InsSlot(_) => s.emptySlots > 0
         case RemItem => s.items > 0
         case InsLock(_) => s.mutex > 0
         case RemLock => s.mutex > 0
         case SyncLock => s.mutex > 0
         case _ => true
  }

  function At(s: State, i: nat, pc: Pc): State
    requires i < |s.threads|
  {
    s.(threads := s.threads[i := pc])
  }

  function Do(s: State, a: Action): State
    requires Enabled(s, a)
  {
    match a
    case StartInsert(i, item) => At(s, i, InsSlot(item))
    case StartRemove(i) => At(s, i, RemItem)
    case StartSync(i) => At(s, i, SyncLock)
    case Handler => s.(handlers := s.handlers - 1, mutex := s.mutex + 1)
    case Advance(i) => Next(s, i)
  }

  function Next(s: State, i: nat): State
    requires Enabled(s, Advance(i))
  {
    match s.threads[i]
    case InsSlot(c) => At(s.(emptySlots := s.emptySlots - 1), i, InsLock(c))
    case InsLock(c) => At(s.(mutex := s.mutex - 1), i, InsLoad(c))
    case InsLoad(c) => At(s, i, InsBump(c, s.rear))
    case InsBump(c, seen) => At(s.(rear := seen + 1, entered := s.entered + [c]), i, InsFd(c, seen + 1))
    case InsFd(c, at) => At(s.(slots := s.slots[at % s.n := s.slots[at % s.n].(fd := c.fd)]), i, InsAddr(c))
    case InsAddr(c) =>
      At(s.(slots := s.slots[s.rear % s.n := s.slots[s.rear % s.n].(addr := c.addr)]), i, InsUnlock(c))
    case InsUnlock(c) => At(s.(mutex := s.mutex + 1), i, InsPost(c))
    case InsPost(c) => At(s.(items := s.items + 1), i, Idle)
    case RemItem => At(s.(items := s.items - 1), i, RemLock)
    case RemLock => At(s.(mutex := s.mutex - 1), i, RemLoad)
    case RemLoad => At(s, i, RemBump(s.front))
    case RemBump(seen) => At(s.(front := seen + 1), i, RemFd(seen + 1))
    case RemFd(at) => At(s, i, RemAddr(s.slots[at % s.n].fd))
    case RemAddr(fd) =>
      var got := Conn(fd, s.slots[s.front % s.n].addr);
      At(s.(left := s.left + [got]), i, RemUnlock(got))
    case RemUnlock(got) => At(s.(mutex := s.mutex + 1), i, RemPost(got))
    case RemPost(got) => At(s.(emptySlots := s.emptySlots + 1, returned := s.returned + multiset{got}), i, Idle)
    case SyncLock => At(s.(mutex := s.mutex - 1), i, SyncKill)
    case SyncKill => At(s.(handlers := s.handlers + 1), i, Idle)
  }

  // ---------------------------------------------------------------- counting threads

  datatype Group = Holding | SlotTaken | Placed | ItemTaken | Cleared | Writing | Reading

  predicate In(g: Group, pc: Pc) {
    match g
    case Holding =>
      pc.InsLoad? || pc.InsBump? || pc.InsFd? || pc.InsAddr? || pc.InsUnlock?
      || pc.RemLoad? || pc.RemBump? || pc.RemFd? || pc.RemAddr? || pc.RemUnlock? || pc.SyncKill?
    case SlotTaken => pc.InsLock? || pc.InsLoad? || pc.InsBump?
    case Placed => pc.InsFd? || pc.InsAddr? || pc.InsUnlock? || pc.InsPost?
    case ItemTaken => pc.RemLock? || pc.RemLoad? || pc.RemBump?
    case Cleared => pc.RemFd? || pc.RemAddr? || pc.RemUnlock? || pc.RemPost?
    case Writing => pc.InsFd? || pc.InsAddr?
    case Reading => pc.RemFd? || pc.RemAddr?
  }

  function One(g: Group, pc: Pc): nat { Threads.One(In, g, pc) }

  function Count(g: Group, ts: seq<Pc>): nat { Threads.Count(In, g, ts) }

  lemma CountUpdate(g: Group, ts: seq<Pc>, i: nat, pc: Pc)
    requires i < |ts|
    ensures Count(g, ts[i := pc]) == Count(g, ts) - One(g, ts[i]) + One(g, pc)
    ensures Count(g, ts) >= One(g, ts[i])
  {
    Threads.CountUpdate(In, g, ts, i, pc);
  }

  function Own(pc: Pc): multiset<Conn> {
    if pc.RemUnlock? || pc.RemPost? then multiset{pc.got} else multiset{}
  }

  /** Connections read out but not yet returned by their threads. */
  function Carried(ts: seq<Pc>): multiset<Conn> { Threads.Gather(Own, ts) }

  lemma CarriedUpdate(ts: seq<Pc>, i: nat, pc: Pc)
    requires i < |ts|
    ensures Carried(ts[i := pc]) + Own(ts[i]) == Carried(ts) + Own(pc)
  {
    Threads.GatherUpdate(Own, ts, i, pc);
  }

  // ---------------------------------------------------------------- the invariant

  /** The mutex has one holder at most, a sync hand-off in flight counting as one. */
  ghost predicate OneHolder(s: State) {
    s.mutex + Count(Holding, s.threads) + s.handlers == 1
  }

  /** Positions in use and positions free, counted by semaphores and by threads between tickets. */
  ghost predicate Tickets(s: State) {
    && s.rear == s.front + s.items + Count(Placed, s.threads) + Count(ItemTaken, s.threads)
    && s.n == s.rear - s.front + s.emptySlots + Count(SlotTaken, s.threads) + Count(Cleared, s.threads)
    && |s.entered| == s.rear
    && s.front == |s.left| + Count(Reading, s.threads)
  }

  /** Every position not yet read holds its connection, the one being written excepted. */
  ghost predicate Stored(s: State) {
    && 0 < s.n == |s.slots| && |s.entered| == s.rear
    && forall k :: |s.left| < k <= s.rear && (k < s.rear || Count(Writing, s.threads) == 0) ==>
         s.slots[k % s.n] == s.entered[k - 1]
  }

  /** What a thread inside its critical section knows. */
  ghost predicate Local(s: State, pc: Pc) {
    && 0 < s.n == |s.slots| && |s.entered| == s.rear
    && match pc
       case InsBump(_, seen) => seen == s.rear
       case InsFd(c, at) => at == s.rear > 0 && s.entered[s.rear - 1] == c
       case InsAddr(c) => s.rear > 0 && s.entered[s.rear - 1] == c && s.slots[s.rear % s.n].fd == c.fd
       case RemBump(seen) => seen == s.front
       case RemFd(at) => at == s.front
       case RemAddr(fd) => 0 < s.front <= s.rear && fd == s.entered[s.front - 1].fd
       case _ => true
  }

  ghost predicate Locals(s: State) {
    forall i :: 0 <= i < |s.threads| ==> Local(s, s.threads[i])
  }

  /** Connections leave in the order they entered, and reach the callers of `sbuf_remove`. */
  ghost predicate InOrder(s: State) {
    && |s.left| <= |s.entered| && s.left == s.entered[..|s.left|]
    && s.returned + Carried(s.threads) == multiset(s.left)
  }

  ghost predicate Inv(s: State) {
    OneHolder(s) && Tickets(s) && Stored(s) && Locals(s) && InOrder(s)
  }

  lemma InitialInv(s: State)
    requires Initial(s)
    ensures Inv(s)
  {
    forall g ensures Count(g, s.threads) == 0 { Threads.CountNone(In, g, s.threads); }
    Threads.GatherNone(Own, s.threads);
  }

  /** All thread counts after thread `i` moves to `pc`. */
  lemma Moved(s: State, i: nat, pc: Pc)
    requires i < |s.threads|
    ensures forall g :: Count(g, s.threads[i := pc]) == Count(g, s.threads) - One(g, s.threads[i]) + One(g, pc)
    ensures forall g :: Count(g, s.threads) >= One(g, s.threads[i])
    ensures Own(s.threads[i]) == Own(pc) ==> Carried(s.threads[i := pc]) == Carried(s.threads)
    ensures Own(s.threads[i]) == multiset{} ==> Carried(s.threads[i := pc]) == Carried(s.threads) + Own(pc)
    ensures Own(pc) == multiset{} ==> Carried(s.threads[i := pc]) + Own(s.threads[i]) == Carried(s.threads)
  {
    forall g ensures Count(g, s.threads[i := pc]) == Count(g, s.threads) - One(g, s.threads[i]) + One(g, pc)
      && Count(g, s.threads) >= One(g, s.threads[i])
    {
      CountUpdate(g, s.threads, i, pc);
    }
    CarriedUpdate(s.threads, i, pc);
    if Own(s.threads[i]) == Own(pc) {
      Cancel(Carried(s.threads[i := pc]), Carried(s.threads), Own(pc));
    }
  }

  lemma Cancel(a: multiset<Conn>, b: multiset<Conn>, x: multiset<Conn>)
    requires a + x == b + x
    ensures a == b
  {
    assert (a + x) - x == a;
    assert (b + x) - x == b;
  }

  /** While thread `i` holds the mutex no other thread does, so none of them depends on the buffer. */
  lemma OthersOutside(s: State, i: nat)
    requires OneHolder(s) && i < |s.threads| && In(Holding, s.threads[i])
    ensures forall j :: 0 <= j < |s.threads| && j != i ==> !In(Holding, s.threads[j])
  {
    forall j | 0 <= j < |s.threads| && j != i ensures !In(Holding, s.threads[j]) {
      if In(Holding, s.threads[j]) { Threads.CountTwo(In, Holding, s.threads, i, j); }
    }
  }

  // ---------------------------------------------------------------- every step keeps it

  lemma HolderStep(s: State, i: nat)
    requires Inv(s) && Enabled(s, Advance(i))
    ensures OneHolder(Next(s, i))
  {
    hide Count, Stored, InOrder, Carried, Tickets, Locals;
    var s' := Next(s, i);
    CountUpdate(Holding, s.threads, i, s'.threads[i]);
    assert s'.threads == s.threads[i := s'.threads[i]];
  }

  /** How the thread counts behind `Tickets` change in one step. */
  lemma TicketCounts(s: State, i: nat)
    requires Enabled(s, Advance(i))
    ensures var ts, ts', pc, pc' := s.threads, Next(s, i).threads, s.threads[i], Next(s, i).threads[i];
      && Count(Placed, ts') == Count(Placed, ts) - One(Placed, pc) + One(Placed, pc')
      && Count(ItemTaken, ts') == Count(ItemTaken, ts) - One(ItemTaken, pc) + One(ItemTaken, pc')
      && Count(SlotTaken, ts') == Count(SlotTaken, ts) - One(SlotTaken, pc) + One(SlotTaken, pc')
      && Count(Cleared, ts') == Count(Cleared, ts) - One(Cleared, pc) + One(Cleared, pc')
      && Count(Reading, ts') == Count(Reading, ts) - One(Reading, pc) + One(Reading, pc')
  {
    hide Count, One;
    var s' := Next(s, i);
    var pc' := s'.threads[i];
    assert s'.threads == s.threads[i := pc'];
    CountUpdate(Placed, s.threads, i, pc');
    CountUpdate(ItemTaken, s.threads, i, pc');
    CountUpdate(SlotTaken, s.threads, i, pc');
    CountUpdate(Cleared, s.threads, i, pc');
    CountUpdate(Reading, s.threads, i, pc');
  }

  predicate Inserting(pc: Pc) {
    pc.InsSlot? || pc.InsLock? || pc.InsLoad? || pc.InsBump? || pc.InsFd? || pc.InsAddr? || pc.InsUnlock? || pc.InsPost?
  }

  lemma InsertTickets(s: State, i: nat)
    requires Tickets(s) && Locals(s) && Enabled(s, Advance(i)) && Inserting(s.threads[i])
    ensures Tickets(Next(s, i))
  {
    hide Count, Locals;
    TicketCounts(s, i);
    SelfLocal(s, i);
  }

  lemma RemoveTickets(s: State, i: nat)
    requires Tickets(s) && Locals(s) && Enabled(s, Advance(i)) && !Inserting(s.threads[i])
    ensures Tickets(Next(s, i))
  {
    hide Count, Locals;
    TicketCounts(s, i);
    SelfLocal(s, i);
  }

  lemma TicketsStep(s: State, i: nat)
    requires Inv(s) && Enabled(s, Advance(i))
    ensures Tickets(Next(s, i))
  {
    hide Next, Tickets;
    if Inserting(s.threads[i]) { InsertTickets(s, i); } else { RemoveTickets(s, i); }
  }

  lemma SelfLocal(s: State, i: nat)
    requires Locals(s) && i < |s.threads|
    ensures Local(s, s.threads[i])
  {}

  /** An idle thread that starts is in no group and carries nothing, before and after. */
  lemma StartCounts(s: State, i: nat, pc: Pc)
    requires i < |s.threads| && s.threads[i] == Idle && (pc.InsSlot? || pc.RemItem? || pc.SyncLock?)
    ensures forall g :: Count(g, s.threads[i := pc]) == Count(g, s.threads)
    ensures Carried(s.threads[i := pc]) == Carried(s.threads)
  {
    hide Count, Carried;
    forall g ensures Count(g, s.threads[i := pc]) == Count(g, s.threads) { CountUpdate(g, s.threads, i, pc); }
    CarriedUpdate(s.threads, i, pc);
    Cancel(Carried(s.threads[i := pc]), Carried(s.threads), multiset{});
  }

  lemma StartStep(s: State, i: nat, pc: Pc)
    requires Inv(s) && i < |s.threads| && s.threads[i] == Idle && (pc.InsSlot? || pc.RemItem? || pc.SyncLock?)
    ensures Inv(At(s, i, pc))
  {
    hide Count, Carried, Local;
    StartCounts(s, i, pc);
    var s' := At(s, i, pc);
    SizedByInv(s);
    forall j | 0 <= j < |s'.threads| ensures Local(s', s'.threads[j]) {
      if j == i {
        LocalOutside(s', pc);
      } else {
        SelfLocal(s, j);
        LocalSame(s, s', s.threads[j]);
      }
    }
  }

  lemma HandlerStep(s: State)
    requires Inv(s) && s.handlers > 0
    ensures Inv(Do(s, Handler))
  {
    hide Count, Carried;
    var s' := Do(s, Handler);
    forall j | 0 <= j < |s'.threads| ensures Local(s', s'.threads[j]) {
      assert Local(s, s.threads[j]);
    }
  }

  /** The base facts that every `Local` includes. */
  ghost predicate Sized(s: State) {
    0 < s.n == |s.slots| && |s.entered| == s.rear
  }

  /** A thread outside its critical section knows nothing that could become false. */
  lemma LocalOutside(s: State, pc: Pc)
    requires Sized(s) && !In(Holding, pc)
    ensures Local(s, pc)
  {}

  /** The buffer fields as seen by the threads are the same. */
  lemma LocalSame(s: State, s': State, pc: Pc)
    requires Local(s, pc)
    requires s'.n == s.n && s'.slots == s.slots && s'.entered == s.entered && s'.front == s.front && s'.rear == s.rear
    ensures Local(s', pc)
  {}

  lemma LocalsStep(s: State, i: nat)
    requires Inv(s) && Enabled(s, Advance(i))
    ensures Locals(Next(s, i))
  {
    hide Count, Stored, InOrder, Carried, Tickets;
    var s' := Next(s, i);
    SelfStep(s, i);
    forall j | 0 <= j < |s'.threads| ensures Local(s', s'.threads[j]) {
      if j != i {
        SelfLocal(s, j);
        if In(Holding, s.threads[i]) {
          OthersOutside(s, i);
          LocalOutside(s', s'.threads[j]);
        } else {
          LocalSame(s, s', s'.threads[j]);
        }
      }
    }
  }

  /** The moving thread's own knowledge after its step. */
  lemma SelfStep(s: State, i: nat)
    requires Inv(s) && Enabled(s, Advance(i))
    ensures Sized(Next(s, i)) && Local(Next(s, i), Next(s, i).threads[i])
  {
    hide Count, InOrder, Carried, OneHolder;
    SelfLocal(s, i);
    CountUpdate(Reading, s.threads, i, Idle);
    CountUpdate(ItemTaken, s.threads, i, Idle);
    if s.threads[i].RemFd? {
      OnlyMe(Writing, s, i);
      assert s.slots[s.front % s.n] == s.entered[s.front - 1];
    }
  }

  /** A group inside the critical section has no member but the mutex holder. */
  lemma OnlyMe(g: Group, s: State, i: nat)
    requires OneHolder(s) && i < |s.threads| && In(Holding, s.threads[i])
    requires g == Writing || g == Reading
    ensures Count(g, s.threads) == One(g, s.threads[i])
  {
    OthersOutside(s, i);
    Threads.CountSole(In, g, s.threads, i);
  }

  /** The step that completes a read takes the oldest connection still in the buffer. */
  lemma OrderRead(s: State, i: nat)
    requires Inv(s) && Enabled(s, Advance(i)) && s.threads[i].RemAddr?
    ensures InOrder(Next(s, i))
  {
    hide Count, Carried, OneHolder, Locals;
    var s' := Next(s, i);
    Moved(s, i, s'.threads[i]);
    SelfLocal(s, i);
    OnlyMe(Writing, s, i);
    OnlyMe(Reading, s, i);
    assert s.slots[s.front % s.n] == s.entered[s.front - 1];
    assert s'.left == s.entered[..s.front];
    assert multiset(s'.left) == multiset(s.left) + multiset{s.entered[s.front - 1]};
  }

  lemma OrderStep(s: State, i: nat)
    requires Inv(s) && Enabled(s, Advance(i))
    ensures InOrder(Next(s, i))
  {
    hide Count, Carried, OneHolder, Locals, Stored;
    if s.threads[i].RemAddr? {
      OrderRead(s, i);
    } else {
      Moved(s, i, Next(s, i).threads[i]);
      OrderOther(s, i);
    }
  }

  /** A call of `sbuf_remove` returns what its thread carried. */
  lemma OrderReturn(s: State, i: nat)
    requires InOrder(s) && Enabled(s, Advance(i)) && s.threads[i].RemPost?
    requires Carried(s.threads[i := Idle]) + Own(s.threads[i]) == Carried(s.threads)
    ensures InOrder(Next(s, i))
  {
    hide Carried;
    var s', got := Next(s, i), s.threads[i].got;
    assert s'.threads == s.threads[i := Idle];
    assert s.returned + multiset{got} + Carried(s'.threads) == s.returned + (Carried(s'.threads) + multiset{got});
  }

  lemma OrderOther(s: State, i: nat)
    requires Sized(s) && InOrder(s) && Enabled(s, Advance(i)) && !s.threads[i].RemAddr?
    requires var pc, ts := Next(s, i).threads[i], s.threads;
      && (Own(ts[i]) == Own(pc) ==> Carried(ts[i := pc]) == Carried(ts))
      && (Own(pc) == multiset{} ==> Carried(ts[i := pc]) + Own(ts[i]) == Carried(ts))
    ensures InOrder(Next(s, i))
  {
    hide Carried;
    if s.threads[i].RemPost? {
      OrderReturn(s, i);
    } else {
      SameHistory(s, i);
      hide Next;
    }
  }

  lemma SameHistory(s: State, i: nat)
    requires Enabled(s, Advance(i)) && !s.threads[i].RemAddr? && !s.threads[i].RemPost?
    ensures var s' := Next(s, i);
      && s'.left == s.left && s'.returned == s.returned && s.entered <= s'.entered
      && Own(s'.threads[i]) == Own(s.threads[i]) && s'.threads == s.threads[i := s'.threads[i]]
  {}

  /** Writing the newest position touches no position still to be read. */
  lemma StoredWrite(s: State, i: nat)
    requires Inv(s) && Enabled(s, Advance(i)) && In(Writing, s.threads[i])
    ensures Stored(Next(s, i))
  {
    hide Count, Carried, OneHolder, Locals, InOrder;
    var s' := Next(s, i);
    CountUpdate(Writing, s.threads, i, s'.threads[i]);
    SelfLocal(s, i);
    OnlyMe(Writing, s, i);
    OnlyMe(Reading, s, i);
    forall k | |s.left| < k < s.rear ensures k % s.n != s.rear % s.n {
      Powers.ModDistinct(k, s.rear, s.n);
    }
  }

  lemma StoredBump(s: State, i: nat)
    requires Inv(s) && Enabled(s, Advance(i)) && s.threads[i].InsBump?
    ensures Stored(Next(s, i))
  {
    hide Count, Carried, OneHolder, Locals, InOrder;
    var s' := Next(s, i);
    CountUpdate(Writing, s.threads, i, s'.threads[i]);
    SelfLocal(s, i);
    OnlyMe(Writing, s, i);
  }

  lemma StoredStep(s: State, i: nat)
    requires Inv(s) && Enabled(s, Advance(i))
    ensures Stored(Next(s, i))
  {
    hide Count, Carried, OneHolder, Locals, InOrder, Tickets;
    if In(Writing, s.threads[i]) {
      StoredWrite(s, i);
    } else if s.threads[i].InsBump? {
      StoredBump(s, i);
    } else {
      CountUpdate(Writing, s.threads, i, Next(s, i).threads[i]);
    }
  }

  lemma StepKeeps(s: State, a: Action)
    requires Inv(s) && Enabled(s, a)
    ensures Inv(Do(s, a))
  {
    hide OneHolder, Tickets, Stored, Locals, InOrder, Next;
    match a
    case StartInsert(i, item) => StartStep(s, i, InsSlot(item));
    case StartRemove(i) => StartStep(s, i, RemItem);
    case StartSync(i) => StartStep(s, i, SyncLock);
    case Handler => HandlerStep(s);
    case Advance(i) =>
      HolderStep(s, i);
      TicketsStep(s, i);
      StoredStep(s, i);
      LocalsStep(s, i);
      OrderStep(s, i);
  }

  // ---------------------------------------------------------------- whole runs

  ghost predicate CanRun(s: State, acts: seq<Action>)
    decreases |acts|
  {
    acts == [] || (Enabled(s, acts[0]) && CanRun(Do(s, acts[0]), acts[1..]))
  }

  function Run(s: State, acts: seq<Action>): State
    requires CanRun(s, acts)
    decreases |acts|
  {
    if acts == [] then s else Run(Do(s, acts[0]), acts[1..])
  }

  lemma {:induction false} RunKeeps(s: State, acts: seq<Action>)
    requires Inv(s) && CanRun(s, acts)
    ensures Inv(Run(s, acts)) && Run(s, acts).n == s.n
    decreases |acts|
  {
    hide Inv;
    if acts != [] {
      StepKeeps(s, acts[0]);
      RunKeeps(Do(s, acts[0]), acts[1..]);
    }
  }

  /** FIFO, exactly once, in every interleaving of any number of threads. */
  lemma RunDeliversInOrder(s: State, acts: seq<Action>)
    requires Initial(s) && CanRun(s, acts)
    ensures var t := Run(s, acts);
      && t.left <= t.entered
      && t.returned <= multiset(t.left)
      && t.front <= |t.entered|
      && (Count(Cleared, t.threads) == 0 ==> t.returned == multiset(t.entered[..t.front]))
  {
    hide Stored, Locals, OneHolder;
    InitialInv(s);
    RunKeeps(s, acts);
    var t := Run(s, acts);
    if Count(Cleared, t.threads) == 0 {
      NoneCleared(t.threads);
      assert t.left == t.entered[..t.front];
    }
  }

  lemma {:induction false} NoneCleared(ts: seq<Pc>)
    requires Count(Cleared, ts) == 0
    ensures Carried(ts) == multiset{} && Count(Reading, ts) == 0
  {
    if ts != [] { NoneCleared(ts[1..]); }
  }

  /** Every connection between the two ends is in its slot unless it is being written right now. */
  lemma RunKeepsUnread(s: State, acts: seq<Action>, k: nat)
    requires Initial(s) && CanRun(s, acts)
    requires var t := Run(s, acts); t.front < k <= t.rear && (k < t.rear || Count(Writing, t.threads) == 0)
    ensures var t := Run(s, acts);
      |t.slots| == t.n > 0 && |t.entered| == t.rear && t.slots[k % t.n] == t.entered[k - 1]
  {
    hide Locals, InOrder;
    InitialInv(s);
    RunKeeps(s, acts);
  }

  /** The two counting semaphores and the threads between their two tickets always make up `n`. */
  lemma RunBalances(s: State, acts: seq<Action>)
    requires Initial(s) && CanRun(s, acts)
    ensures var t := Run(s, acts);
      && t.front <= t.rear <= t.front + s.n
      && t.emptySlots + t.items + Count(SlotTaken, t.threads) + Count(Placed, t.threads)
         + Count(ItemTaken, t.threads) + Count(Cleared, t.threads) == s.n
  {
    hide Stored, Locals, InOrder;
    InitialInv(s);
    RunKeeps(s, acts);
  }

  /** At most one thread or pending hand-off holds the mutex, and at most one hand-off is outstanding. */
  lemma RunExcludes(s: State, acts: seq<Action>)
    requires Initial(s) && CanRun(s, acts)
    ensures var t := Run(s, acts);
      && t.mutex <= 1 && t.handlers <= 1
      && (t.handlers == 1 ==> t.mutex == 0 && forall i :: 0 <= i < |t.threads| ==> !In(Holding, t.threads[i]))
      && (forall i, j :: 0 <= i < j < |t.threads| ==> !(In(Holding, t.threads[i]) && In(Holding, t.threads[j])))
  {
    hide Stored, Locals, InOrder, Tickets;
    InitialInv(s);
    RunKeeps(s, acts);
    var t := Run(s, acts);
    forall i | 0 <= i < |t.threads| && t.handlers == 1 ensures !In(Holding, t.threads[i]) {
      CountUpdate(Holding, t.threads, i, Idle);
    }
    forall i, j | 0 <= i < j < |t.threads| ensures !(In(Holding, t.threads[i]) && In(Holding, t.threads[j])) {
      if In(Holding, t.threads[i]) && In(Holding, t.threads[j]) { Threads.CountTwo(In, Holding, t.threads, i, j); }
    }
  }

  // ---------------------------------------------------------------- no deadlock

  /** No thread inside a call, and no signal handler, can take a step. */
  ghost predicate Stuck(s: State) {
    s.handlers == 0 && forall i :: 0 <= i < |s.threads| ==> !Enabled(s, Advance(i))
  }

  lemma StuckOutside(s: State, g: Group)
    requires Inv(s) && Stuck(s) && (g == Holding || s.mutex == 1)
    ensures Count(g, s.threads) == 0
  {
    hide Count, Locals, InOrder, Stored, Tickets;
    forall i | 0 <= i < |s.threads| ensures !In(g, s.threads[i]) {
      assert !Enabled(s, Advance(i));
      assert 0 < s.n == |s.slots| by { SizedByInv(s); }
    }
    Threads.CountNone(In, g, s.threads);
    CountIs(g, s.threads);
  }

  lemma SizedByInv(s: State)
    requires Inv(s)
    ensures Sized(s)
  {}

  lemma CountIs(g: Group, ts: seq<Pc>)
    ensures Count(g, ts) == Threads.Count(In, g, ts)
  {}

  /**
   The only way for all calls to be stuck is to be waiting for a real reason: removers on an empty
   buffer, or inserters on a full one, never both; the mutex is free.
   */
  lemma RunNeverDeadlocks(s: State, acts: seq<Action>)
    requires Initial(s) && CanRun(s, acts) && Stuck(Run(s, acts))
    ensures var t := Run(s, acts);
      && t.mutex == 1
      && (forall i :: 0 <= i < |t.threads| ==> t.threads[i].Idle? || t.threads[i].InsSlot? || t.threads[i].RemItem?)
      && ((exists i :: 0 <= i < |t.threads| && t.threads[i].RemItem?) ==> t.front == t.rear)
      && ((exists i :: 0 <= i < |t.threads| && t.threads[i].InsSlot?) ==> t.rear == t.front + t.n)
      && (t.front == t.rear ==> t.rear != t.front + t.n)
  {
    hide Count, Locals, InOrder, Stored;
    InitialInv(s);
    RunKeeps(s, acts);
    var t := Run(s, acts);
    SizedByInv(t);
    StuckOutside(t, Holding);
    StuckOutside(t, Placed);
    StuckOutside(t, ItemTaken);
    StuckOutside(t, SlotTaken);
    StuckOutside(t, Cleared);
    forall i | 0 <= i < |t.threads| ensures
      && (t.threads[i].Idle? || t.threads[i].InsSlot? || t.threads[i].RemItem?)
      && (t.threads[i].RemItem? ==> t.items == 0) && (t.threads[i].InsSlot? ==> t.emptySlots == 0)
    {
      assert !Enabled(t, Advance(i));
    }
  }
}
