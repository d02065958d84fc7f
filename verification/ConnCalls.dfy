/**
 The connection buffer seen by its callers: what the calls of a run asked for is what went through
 the buffer, and calls made one after the other use it as a plain queue of `n` places.
 */
module ConnCalls {
  import opened ConnBuffer
  import Threads

  // ---------------------------------------------------------------- the calls of a run

  /** What an action hands to `sbuf_insert`. */
  function Item(a: Action): multiset<Conn> { if a.StartInsert? then multiset{a.item} else multiset{} }

  /** All items handed to `sbuf_insert` in a run. */
  function Items(acts: seq<Action>): multiset<Conn> { Threads.Gather(Item, acts) }

  datatype Event = Removal | Sync | Release

  predicate Is(e: Event, a: Action) {
    match e
    case Removal => a.StartRemove?
    case Sync => a.StartSync?
    case Release => a.Handler?
  }

  /** How many actions of a run are of this kind. */
  function Times(e: Event, acts: seq<Action>): nat { Threads.Count(Is, e, acts) }

  // ---------------------------------------------------------------- the calls in progress

  /** The item of an insertion that has no position yet. */
  function Brought(pc: Pc): multiset<Conn> {
    if pc.InsSlot? || pc.InsLock? || pc.InsLoad? || pc.InsBump? then multiset{pc.item} else multiset{}
  }

  function Waiting(ts: seq<Pc>): multiset<Conn> { Threads.Gather(Brought, ts) }

  datatype Stage = Removing | Syncing

  predicate Within(g: Stage, pc: Pc) {
    match g
    case Removing =>
      pc.RemItem? || pc.RemLock? || pc.RemLoad? || pc.RemBump? || pc.RemFd? || pc.RemAddr? || pc.RemUnlock? || pc.RemPost?
    case Syncing => pc.SyncLock? || pc.SyncKill?
  }

  /** How many threads are inside `sbuf_remove`, or on their way from deciding to sync to the signal. */
  function Inside(g: Stage, ts: seq<Pc>): nat { Threads.Count(Within, g, ts) }

  /** What has become of the calls: items that got a position or wait for one, removals, syncs. */
  datatype Account = Account(inserted: multiset<Conn>, removals: nat, syncs: nat)

  function Balance(s: State): Account {
    Account(multiset(s.entered) + Waiting(s.threads), |s.returned| + Inside(Removing, s.threads),
            s.handlers + Inside(Syncing, s.threads))
  }

  function One(g: Stage, pc: Pc): nat { Threads.One(Within, g, pc) }

  lemma ThreadMoves(s: State, i: nat, pc: Pc)
    requires i < |s.threads|
    ensures Waiting(s.threads[i := pc]) + Brought(s.threads[i]) == Waiting(s.threads) + Brought(pc)
    ensures forall g :: Inside(g, s.threads[i := pc]) == Inside(g, s.threads) - One(g, s.threads[i]) + One(g, pc)
    ensures forall g :: Inside(g, s.threads) >= One(g, s.threads[i])
  {
    Threads.GatherUpdate(Brought, s.threads, i, pc);
    forall g
      ensures Inside(g, s.threads[i := pc]) == Inside(g, s.threads) - One(g, s.threads[i]) + One(g, pc)
      ensures Inside(g, s.threads) >= One(g, s.threads[i])
    {
      Threads.CountUpdate(Within, g, s.threads, i, pc);
    }
  }

  lemma OnlyThread(s: State, i: nat)
    requires Enabled(s, Advance(i))
    ensures Next(s, i).threads == s.threads[i := Next(s, i).threads[i]]
  {}

  /** What a step of thread `i` does to the items that entered, and to the thread's own. */
  lemma EntersOrKeeps(s: State, i: nat)
    requires Enabled(s, Advance(i))
    ensures var s', pc, pc' := Next(s, i), s.threads[i], Next(s, i).threads[i];
      multiset(s'.entered) + Brought(pc') == multiset(s.entered) + Brought(pc)
  {
    var s', pc := Next(s, i), s.threads[i];
    if pc.InsBump? {
      assert s'.entered == s.entered + [pc.item];
      assert Brought(pc) == multiset{pc.item} && Brought(s'.threads[i]) == multiset{};
    } else {
      assert s'.entered == s.entered && Brought(s'.threads[i]) == Brought(pc);
    }
  }

  lemma ReturnsOrKeeps(s: State, i: nat)
    requires Enabled(s, Advance(i))
    ensures |Next(s, i).returned| + One(Removing, Next(s, i).threads[i]) == |s.returned| + One(Removing, s.threads[i])
  {
    if s.threads[i].RemPost? { assert Next(s, i).returned == s.returned + multiset{s.threads[i].got}; }
  }

  lemma SendsOrKeeps(s: State, i: nat)
    requires Enabled(s, Advance(i))
    ensures Next(s, i).handlers + One(Syncing, Next(s, i).threads[i]) == s.handlers + One(Syncing, s.threads[i])
  {}

  /** What an action does to the histories and to the thread that takes it. */
  ghost predicate Moves(s: State, s': State, a: Action)
    requires !a.Handler?
  {
    && a.i < |s.threads| == |s'.threads| && s'.threads == s.threads[a.i := s'.threads[a.i]]
    && var pc, pc' := s.threads[a.i], s'.threads[a.i];
       && multiset(s'.entered) + Brought(pc') == multiset(s.entered) + Brought(pc) + Item(a)
       && |s'.returned| + One(Removing, pc') == |s.returned| + One(Removing, pc) + (if a.StartRemove? then 1 else 0)
       && s'.handlers + One(Syncing, pc') == s.handlers + One(Syncing, pc) + (if a.StartSync? then 1 else 0)
  }

  lemma StartMoves(s: State, a: Action)
    requires Enabled(s, a) && !a.Advance? && !a.Handler?
    ensures Moves(s, Do(s, a), a)
  {
    var s' := Do(s, a);
    var pc' := s'.threads[a.i];
    assert s.threads[a.i] == Idle && s' == s.(threads := s.threads[a.i := pc']);
    hide Do, Enabled, Next;
    FromIdle(pc');
  }

  lemma FromIdle(pc: Pc)
    ensures Brought(Idle) == multiset{} && One(Removing, Idle) == One(Syncing, Idle) == 0
    ensures pc.InsSlot? ==> Brought(pc) == multiset{pc.item} && One(Removing, pc) == One(Syncing, pc) == 0
    ensures pc.RemItem? ==> Brought(pc) == multiset{} && One(Removing, pc) == 1 && One(Syncing, pc) == 0
    ensures pc.SyncLock? ==> Brought(pc) == multiset{} && One(Removing, pc) == 0 && One(Syncing, pc) == 1
  {}

  lemma AdvanceMoves(s: State, i: nat)
    requires Enabled(s, Advance(i))
    ensures Moves(s, Next(s, i), Advance(i))
  {
    OnlyThread(s, i);
    EntersOrKeeps(s, i);
    ReturnsOrKeeps(s, i);
    SendsOrKeeps(s, i);
    hide Next, One, Brought;
    assert Item(Advance(i)) == multiset{};
  }

  /** One step changes the balance by what it asks for, or by the sync it completes. */
  lemma StepBalances(s: State, a: Action)
    requires Enabled(s, a)
    ensures var b, b' := Balance(s), Balance(Do(s, a));
      && b'.inserted == b.inserted + Item(a)
      && b'.removals == b.removals + (if a.StartRemove? then 1 else 0)
      && b'.syncs + (if a.Handler? then 1 else 0) == b.syncs + (if a.StartSync? then 1 else 0)
  {
    hide Waiting, Inside, Next, One, Brought, Item;
    var s' := Do(s, a);
    if a.Handler? {
      NoItem(s, a);
    } else {
      if a.Advance? { AdvanceMoves(s, a.i); } else { StartMoves(s, a); }
      hide Do, Enabled;
      ThreadMoves(s, a.i, s'.threads[a.i]);
      Regroup(s, s', Brought(s.threads[a.i]), Brought(s'.threads[a.i]), Item(a));
    }
  }

  lemma NoItem(s: State, a: Action)
    requires a.Handler?
    ensures Item(a) == multiset{} && Balance(s).inserted + Item(a) == Balance(s).inserted
  {}

  lemma Regroup(s: State, s': State, x: multiset<Conn>, y: multiset<Conn>, item: multiset<Conn>)
    requires Waiting(s'.threads) + x == Waiting(s.threads) + y
    requires multiset(s'.entered) + y == multiset(s.entered) + x + item
    ensures multiset(s'.entered) + Waiting(s'.threads) == multiset(s.entered) + Waiting(s.threads) + item
  {
    hide Waiting;
    var e, e', w, w' := multiset(s.entered), multiset(s'.entered), Waiting(s.threads), Waiting(s'.threads);
    forall c ensures (e' + w')[c] == (e + w + item)[c] {
      assert (w' + x)[c] == (w + y)[c];
      assert (e' + y)[c] == (e + x + item)[c];
    }
  }

  lemma {:induction false} RunFrom(s: State, acts: seq<Action>)
    requires CanRun(s, acts)
    ensures var b, b' := Balance(s), Balance(Run(s, acts));
      && b'.inserted == b.inserted + Items(acts)
      && b'.removals == b.removals + Times(Removal, acts)
      && b'.syncs + Times(Release, acts) == b.syncs + Times(Sync, acts)
    decreases |acts|
  {
    hide Balance, Enabled, Do;
    if acts != [] {
      StepBalances(s, acts[0]);
      RunFrom(Do(s, acts[0]), acts[1..]);
      assert Items(acts) == Item(acts[0]) + Items(acts[1..]);
    }
  }

  /**
   In every run what entered the buffer, with what waits to enter, is exactly what was handed to
   `sbuf_insert`; every call of `sbuf_remove` has returned one connection or is in progress; every
   decision to sync has been completed by the handler or is in progress.
   */
  lemma RunAccounts(s: State, acts: seq<Action>)
    requires Initial(s) && CanRun(s, acts)
    ensures var t := Run(s, acts);
      && multiset(t.entered) + Waiting(t.threads) == Items(acts)
      && |t.returned| + Inside(Removing, t.threads) == Times(Removal, acts)
      && t.handlers + Inside(Syncing, t.threads) + Times(Release, acts) == Times(Sync, acts)
  {
    hide Run, CanRun, Items, Times;
    Threads.GatherNone(Brought, s.threads);
    Threads.CountNone(Within, Removing, s.threads);
    Threads.CountNone(Within, Syncing, s.threads);
    RunFrom(s, acts);
  }

  /** So no call of `sbuf_remove` returns anything that was not handed to `sbuf_insert`, or anything twice. */
  lemma RunReturnsWhatWasInserted(s: State, acts: seq<Action>)
    requires Initial(s) && CanRun(s, acts)
    ensures var t := Run(s, acts);
      && t.returned <= multiset(t.left) <= multiset(t.entered) <= Items(acts)
      && ((forall i :: 0 <= i < |t.threads| ==> t.threads[i] == Idle) ==>
            && |t.left| <= |t.entered|
            && t.returned == multiset(t.entered[..|t.left|])
            && Items(acts) == t.returned + multiset(t.entered[|t.left|..]))
  {
    hide Items, Waiting, Inside, Count, Initial, Locals, Stored;
    RunAccounts(s, acts);
    InitialInv(s);
    RunKeeps(s, acts);
    var t := Run(s, acts);
    hide Run, CanRun;
    assert t.entered == t.left + t.entered[|t.left|..];
    assert multiset(t.entered) == multiset(t.left) + multiset(t.entered[|t.left|..]);
    if forall i :: 0 <= i < |t.threads| ==> t.threads[i] == Idle {
      NobodyInside(t.threads);
    }
  }

  lemma NobodyInside(ts: seq<Pc>)
    requires forall i :: 0 <= i < |ts| ==> ts[i] == Idle
    ensures Waiting(ts) == multiset{} && Carried(ts) == multiset{}
  {
    Threads.GatherNone(Brought, ts);
    Threads.GatherNone(Own, ts);
  }
}
