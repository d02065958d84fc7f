/**
 How far below zero the threaded server can drive a count.  The check in `modify` is not under the
 stock's lock, so several threads can pass it before any of them stores; with T threads and orders
 that take at most B shares each the lowest count any run reaches is -(T - 1) * B.
 */
module StockBound {
  import opened Machine
  import opened StockLocks

  /** Shares of stock `k` that this thread has been promised by the check and not yet taken. */
  function Debt(pc: Pc, k: nat): nat {
    if (pc.NLock? || pc.NLoad? || pc.NStore?) && pc.at == k && pc.o.delta < 0 then 0 - pc.o.delta else 0
  }

  function Debts(ts: seq<Pc>, k: nat): nat {
    if ts == [] then 0 else Debt(ts[0], k) + Debts(ts[1..], k)
  }

  lemma {:induction false} DebtsUpdate(ts: seq<Pc>, i: nat, pc: Pc, k: nat)
    requires i < |ts|
    ensures Debts(ts[i := pc], k) == Debts(ts, k) - Debt(ts[i], k) + Debt(pc, k)
    decreases |ts|
  {
    var ts' := ts[i := pc];
    if i == 0 {
      assert ts'[1..] == ts[1..];
    } else {
      assert ts'[1..] == ts[1..][i - 1 := pc];
      DebtsUpdate(ts[1..], i - 1, pc, k);
    }
  }

  /** The order a thread is working on takes at most `most` shares. */
  predicate Modest(pc: Pc, most: nat) {
    (pc.WLock? || pc.WLoad? || pc.WBump? || pc.WUnlock? || pc.WSpin? || pc.WFind? || pc.WCheck?
     || pc.NLock? || pc.NLoad? || pc.NStore? || pc.NUnlock?) ==> pc.o.delta + most >= 0
  }

  ghost predicate AllModest(ts: seq<Pc>, most: nat) { forall i :: 0 <= i < |ts| ==> Modest(ts[i], most) }

  lemma {:induction false} DebtsBound(ts: seq<Pc>, k: nat, most: nat)
    requires AllModest(ts, most)
    ensures Debts(ts, k) <= |ts| * most
  {
    if ts != [] {
      assert Modest(ts[0], most);
      DebtsBound(ts[1..], k, most);
      assert |ts| * most == most + |ts[1..]| * most;
    }
  }

  /** A thread that has been promised nothing leaves the debts to the others. */
  lemma {:induction false} DebtsOfOthers(ts: seq<Pc>, i: nat, k: nat, most: nat)
    requires AllModest(ts, most) && i < |ts| && Debt(ts[i], k) == 0
    ensures Debts(ts, k) <= (|ts| - 1) * most
    decreases |ts|
  {
    if i == 0 {
      DebtsBound(ts[1..], k, most);
    } else {
      assert Modest(ts[0], most);
      DebtsOfOthers(ts[1..], i - 1, k, most);
      assert (|ts| - 1) * most == most + (|ts[1..]| - 1) * most;
    }
  }

  /** The most that all threads but one can take. */
  function Depth(s: State, most: nat): int { (|s.threads| - 1) * most }

  /** Even after every promise is kept no count is below the bound. */
  ghost predicate Bounded(s: State, most: nat) {
    && AllModest(s.threads, most)
    && forall k :: 0 <= k < |s.counts| ==> s.counts[k] - Debts(s.threads, k) >= -Depth(s, most)
  }

  lemma CountStep(s: State, i: nat, k: nat, most: nat)
    requires Inv(s) && Bounded(s, most) && Enabled(s, Advance(i)) && k < |s.counts|
    ensures Next(s, i).counts[k] - Debts(Next(s, i).threads, k) >= -Depth(s, most)
  {
    hide Locked, NodesLocked, Counted, Conserved, Locals, AllModest, Debts, Depth;
    var t := Next(s, i);
    ThreadsAfter(s, i);
    SelfLocal(s, i);
    assert s.counts[k] - Debts(s.threads, k) >= -Depth(s, most);
    DebtsUpdate(s.threads, i, t.threads[i], k);
    if s.threads[i].WCheck? {
      DebtsOfOthers(s.threads, i, k, most);
      assert Debts(s.threads, k) <= Depth(s, most) by { DepthIs(s, most); }
    }
  }

  lemma DepthIs(s: State, most: nat)
    ensures Depth(s, most) == (|s.threads| - 1) * most
  {}

  lemma ModestStep(s: State, i: nat, most: nat)
    requires AllModest(s.threads, most) && Enabled(s, Advance(i))
    ensures AllModest(Next(s, i).threads, most)
  {
    ThreadsAfter(s, i);
    assert Modest(s.threads[i], most);
    assert Modest(Next(s, i).threads[i], most);
  }

  lemma BoundedStep(s: State, a: Action, most: nat)
    requires Inv(s) && Bounded(s, most) && Enabled(s, a) && ModestAction(a, most)
    ensures Bounded(Do(s, a), most)
  {
    hide Inv, Next, Debts;
    match a
    case StartShow(i) => StartBounded(s, i, RSpin, most);
    case StartOrder(i, o) => StartBounded(s, i, WLock(o), most);
    case Advance(i) =>
      ThreadsAfter(s, i);
      ModestStep(s, i, most);
      forall k: nat | k < |s.counts|
        ensures Next(s, i).counts[k] - Debts(Next(s, i).threads, k) >= -Depth(s, most)
      {
        CountStep(s, i, k, most);
      }
  }

  lemma StartBounded(s: State, i: nat, pc: Pc, most: nat)
    requires Bounded(s, most) && i < |s.threads| && s.threads[i] == Idle && (pc.RSpin? || pc.WLock?) && Modest(pc, most)
    ensures Bounded(At(s, i, pc), most)
  {
    hide Debts;
    forall k: nat ensures Debts(At(s, i, pc).threads, k) == Debts(s.threads, k) { DebtsUpdate(s.threads, i, pc, k); }
  }

  lemma {:induction false} RunBounded(s: State, acts: seq<Action>, most: nat)
    requires Inv(s) && Bounded(s, most) && CanRun(s, acts) && ModestRun(acts, most)
    ensures Bounded(Run(s, acts), most) && |Run(s, acts).threads| == |s.threads|
    decreases |acts|
  {
    hide Inv, Bounded, Do, Enabled;
    if acts != [] {
      assert ModestAction(acts[0], most);
      BoundedStep(s, acts[0], most);
      StepKeeps(s, acts[0]);
      DoFixed(s, acts[0]);
      RunBounded(Do(s, acts[0]), acts[1..], most);
    }
  }

  lemma {:induction false} NoDebts(ts: seq<Pc>, k: nat)
    requires forall i :: 0 <= i < |ts| ==> ts[i] == Idle
    ensures Debts(ts, k) == 0
  {
    if ts != [] { NoDebts(ts[1..], k); }
  }

  /** In every run, with orders for at most `most` shares, no count falls below -(T - 1) * `most`. */
  lemma RunNeverBelow(s: State, acts: seq<Action>, most: nat, k: nat)
    requires Initial(s) && NonNegative(s) && |s.threads| > 0 && CanRun(s, acts) && ModestRun(acts, most)
    requires k < |Run(s, acts).counts|
    ensures Run(s, acts).counts[k] >= -((|s.threads| - 1) * most)
  {
    hide Inv, Initial, NonNegative, Run, CanRun, AllModest;
    InitialInv(s);
    InitialBounded(s, most);
    RunBounded(s, acts, most);
    var t := Run(s, acts);
    assert t.counts[k] - Debts(t.threads, k) >= -Depth(t, most);
  }

  lemma InitialBounded(s: State, most: nat)
    requires Initial(s) && NonNegative(s) && |s.threads| > 0
    ensures Bounded(s, most)
  {
    forall j: nat ensures Debts(s.threads, j) == 0 { NoDebts(s.threads, j); }
    assert (|s.threads| - 1) * most >= 0;
  }

  // ---------------------------------------------------------------- a run that gets there

  /** `most` shares of one stock, and `threads` threads about to buy all of them. */
  function Stocked(threads: nat, most: nat): State
    requires most <= INT_MAX
  {
    State([7], [most], [most], [1], 0, 0, 1, 1, seq(threads, _ => Idle), [])
  }

  function BuyAll(most: nat): Order
    requires most <= INT_MAX
  {
    Order(7, 0 - most)
  }

  /** The first `j` threads have passed the check. */
  function Waiting(threads: nat, most: nat, j: nat): State
    requires most <= INT_MAX
  {
    Stocked(threads, most).(writerN := j, threads := seq(threads, i => if i < j then NLock(BuyAll(most), 0) else Idle))
  }

  /** All threads have, and the first `j` have taken their shares. */
  function Taken(threads: nat, most: nat, j: nat): State
    requires most <= INT_MAX
  {
    Stocked(threads, most).(
      writerN := threads, counts := [most - j * most],
      threads := seq(threads, i => if i < j then WLock2(BuyAll(most), Applied(0, 0 - most)) else NLock(BuyAll(most), 0)))
  }

  lemma {:induction false} ReachesWaiting(threads: nat, most: nat, j: nat)
    requires j <= threads && most <= INT_MAX
    ensures Reaches(Stocked(threads, most), Waiting(threads, most, j), most)
  {
    var s := Stocked(threads, most);
    if j == 0 {
      ReachesSelf(s, most);
      assert Waiting(threads, most, 0).threads == s.threads;
    } else {
      ReachesWaiting(threads, most, j - 1);
      var t := Waiting(threads, most, j - 1);
      var t' := Approach(s, t, j - 1, BuyAll(most), most);
      assert t.threads[j - 1 := NLock(BuyAll(most), 0)] == Waiting(threads, most, j).threads;
    }
  }

  lemma {:induction false} ReachesTaken(threads: nat, most: nat, j: nat)
    requires j <= threads && most <= INT_MAX && (threads - 1) * most <= -INT_MIN
    ensures Reaches(Stocked(threads, most), Taken(threads, most, j), most)
  {
    var s := Stocked(threads, most);
    if j == 0 {
      ReachesWaiting(threads, most, threads);
      assert Waiting(threads, most, threads).threads == Taken(threads, most, 0).threads;
      assert Waiting(threads, most, threads) == Taken(threads, most, 0);
    } else {
      ReachesTaken(threads, most, j - 1);
      StillFits(threads, most, j);
      var t := Taken(threads, most, j - 1);
      var t' := Apply(s, t, j - 1, BuyAll(most), 0, most);
      assert t.threads[j - 1 := WLock2(BuyAll(most), Applied(0, 0 - most))] == Taken(threads, most, j).threads;
      assert most - (j - 1) * most - most == most - j * most;
      assert t'.counts == [most - j * most];
    }
  }

  lemma StillFits(threads: nat, most: nat, j: nat)
    requires 0 < j <= threads && most <= INT_MAX && (threads - 1) * most <= -INT_MIN
    ensures Fits(most - (j - 1) * most - most)
  {
    assert most - (j - 1) * most - most == -((j - 1) * most);
    assert (j - 1) * most + (threads - j) * most == (threads - 1) * most;
  }

  /**
   The bound is attained as long as it is an `int`: for every number of threads and every order size
   some run with a non-negative start ends with a count of exactly -(T - 1) * `most`.
   */
  lemma LowestIsReached(threads: nat, most: nat)
    requires threads > 0 && most <= INT_MAX && (threads - 1) * most <= -INT_MIN
    ensures var s := Stocked(threads, most); Initial(s) && NonNegative(s) && |s.threads| == threads
    ensures var t := Taken(threads, most, threads);
      Reaches(Stocked(threads, most), t, most) && t.counts == [-((threads - 1) * most)]
  {
    ReachesTaken(threads, most, threads);
    assert most - threads * most == -((threads - 1) * most);
  }

  /** Every count is an `int` in every reachable state. */
  lemma {:induction false} RunFits(s: State, acts: seq<Action>)
    requires AllFit(s) && CanRun(s, acts)
    ensures AllFit(Run(s, acts))
    decreases |acts|
  {
    if acts != [] { RunFits(Do(s, acts[0]), acts[1..]); }
  }

  ghost predicate AllFit(s: State) { forall k :: 0 <= k < |s.counts| ==> Fits(s.counts[k]) }

  /** Some run with such orders takes some count down to `n`. */
  ghost predicate Sinks(threads: nat, most: nat, n: int) {
    exists s, t :: Initial(s) && NonNegative(s) && |s.threads| == threads && Reaches(s, t, most) && n in t.counts
  }

  /** So it is attained exactly if it is an `int`. */
  lemma LowestReachedExactly(threads: nat, most: nat)
    requires threads > 0 && most <= INT_MAX
    ensures Sinks(threads, most, -((threads - 1) * most)) <==> (threads - 1) * most <= -INT_MIN
  {
    hide NonNegative;
    var n := -((threads - 1) * most);
    if (threads - 1) * most <= -INT_MIN {
      LowestIsReached(threads, most);
      assert n in Taken(threads, most, threads).counts;
    } else if Sinks(threads, most, n) {
      var s, t :| Initial(s) && NonNegative(s) && |s.threads| == threads && Reaches(s, t, most) && n in t.counts;
      var acts := TheRun(s, t, most);
      RunFits(s, acts);
    }
  }

  /** No run with such orders takes any count below `floor`. */
  ghost predicate NeverBelow(threads: nat, most: nat, floor: int) {
    forall s, acts, k ::
      (Initial(s) && NonNegative(s) && |s.threads| == threads && CanRun(s, acts) && ModestRun(acts, most)
       && 0 <= k < |Run(s, acts).counts|) ==> Run(s, acts).counts[k] >= floor
  }

  /** The lowest count that T threads can produce with orders for at most `most` shares is -(T - 1) * `most`. */
  lemma LowestCountExactly(threads: nat, most: nat, floor: int)
    requires threads > 0 && most <= INT_MAX && (threads - 1) * most <= -INT_MIN
    ensures NeverBelow(threads, most, floor) <==> floor <= -((threads - 1) * most)
  {
    hide Reaches, Initial, NonNegative, Stocked, Taken, ModestRun;
    if floor <= -((threads - 1) * most) {
      forall s, acts, k | Initial(s) && NonNegative(s) && |s.threads| == threads && CanRun(s, acts)
        && ModestRun(acts, most) && 0 <= k < |Run(s, acts).counts|
        ensures Run(s, acts).counts[k] >= floor
      {
        RunNeverBelow(s, acts, most, k);
      }
    } else {
      LowestIsReached(threads, most);
      var s, t := Stocked(threads, most), Taken(threads, most, threads);
      var acts := TheRun(s, t, most);
      assert Run(s, acts).counts[0] < floor;
    }
  }

  lemma TheRun(s: State, t: State, most: nat) returns (acts: seq<Action>)
    requires Reaches(s, t, most)
    ensures CanRun(s, acts) && Run(s, acts) == t && ModestRun(acts, most)
  {
    acts :| CanRun(s, acts) && Run(s, acts) == t && ModestRun(acts, most);
  }
}
