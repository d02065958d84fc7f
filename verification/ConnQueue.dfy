/**
 The connection buffer is usable: calls of `sbuf_insert`, `sbuf_remove` and syncs, made one after the
 other by any of the threads, can all run to their end, and use the buffer as a queue of `n` places.
 */
module ConnQueue {
  import opened ConnBuffer
  import Threads

  /** Some run from `s` ends in `t`. */
  ghost predicate Reaches(s: State, t: State) {
    exists acts :: CanRun(s, acts) && Run(s, acts) == t
  }

  lemma {:induction false} RunSnoc(s: State, acts: seq<Action>, a: Action)
    requires CanRun(s, acts) && Enabled(Run(s, acts), a)
    ensures CanRun(s, acts + [a]) && Run(s, acts + [a]) == Do(Run(s, acts), a)
    decreases |acts|
  {
    hide Do, Enabled;
    if acts == [] {
      assert (acts + [a])[1..] == [];
    } else {
      RunSnoc(Do(s, acts[0]), acts[1..], a);
      assert (acts + [a])[1..] == acts[1..] + [a];
    }
  }

  /** One more step, which keeps the invariant. */
  lemma More(s: State, t: State, a: Action) returns (t': State)
    requires Reaches(s, t) && Inv(t) && Enabled(t, a)
    ensures t' == Do(t, a) && Reaches(s, t') && Inv(t')
  {
    hide Do, Enabled, Inv;
    var acts :| CanRun(s, acts) && Run(s, acts) == t;
    RunSnoc(s, acts, a);
    StepKeeps(t, a);
    t' := Do(t, a);
  }

  /** No call is in progress. */
  ghost predicate Quiet(t: State) {
    && t.mutex == 1 && t.handlers == 0
    && forall i :: 0 <= i < |t.threads| ==> t.threads[i] == Idle
  }

  /** In a quiet state the semaphores count the queue, which is what entered and has not left. */
  lemma QuietCounts(t: State)
    requires Inv(t) && Quiet(t)
    ensures 0 < t.n == |t.slots| && t.items == |t.entered| - |t.left| && t.emptySlots == t.n - t.items
    ensures |t.left| <= |t.entered| && t.left == t.entered[..|t.left|] && t.returned == multiset(t.left)
  {
    forall g ensures Count(g, t.threads) == 0 { Threads.CountNone(In, g, t.threads); }
    Threads.GatherNone(Own, t.threads);
  }

  /** `t'` is quiet as well, with these many more connections inserted and removed. */
  ghost predicate After(t: State, t': State, put: seq<Conn>, got: nat) {
    && Quiet(t') && t'.n == t.n && |t'.threads| == |t.threads|
    && t'.entered == t.entered + put && |t'.left| == |t.left| + got
  }

  /** `u` differs from `t` in thread `i`, in the buffer and in the mutex. */
  ghost predicate OnlyBy(t: State, u: State, i: nat, pc: Pc, mutex: nat) {
    && i < |t.threads| && u.threads == t.threads[i := pc] && u.mutex == mutex
    && u.n == t.n && |u.slots| == |t.slots| && u.handlers == t.handlers
  }

  /** And not in what entered and left. */
  ghost predicate SoFarOnly(t: State, u: State, i: nat, pc: Pc, mutex: nat) {
    OnlyBy(t, u, i, pc, mutex) && u.entered == t.entered && u.left == t.left
  }

  lemma InsertCall(s: State, t: State, i: nat, item: Conn) returns (t': State)
    requires Reaches(s, t) && Inv(t) && Quiet(t) && i < |t.threads| && |t.entered| - |t.left| < t.n
    ensures Reaches(s, t') && Inv(t') && After(t, t', [item], 0)
  {
    QuietCounts(t);
    hide Reaches, Inv, Do, Enabled;
    t' := InsertLock(s, t, i, item);
    t' := InsertWrite(s, t, t', i, item);
    t' := InsertPost(s, t, t', i, item);
  }

  lemma InsertLock(s: State, t: State, i: nat, item: Conn) returns (t': State)
    requires Reaches(s, t) && Inv(t) && Quiet(t) && i < |t.threads| && 0 < t.n == |t.slots| && t.emptySlots > 0
    ensures Reaches(s, t') && Inv(t') && SoFarOnly(t, t', i, InsBump(item, t'.rear), 0)
  {
    hide Reaches, Inv;
    t' := More(s, t, StartInsert(i, item));
    t' := More(s, t', Advance(i));
    t' := More(s, t', Advance(i));
    t' := More(s, t', Advance(i));
  }

  lemma InsertPost(s: State, t: State, u: State, i: nat, item: Conn) returns (t': State)
    requires Reaches(s, u) && Inv(u) && Quiet(t) && 0 < t.n == |t.slots| && OnlyBy(t, u, i, InsUnlock(item), 0)
    ensures Reaches(s, t') && Inv(t') && OnlyBy(t, t', i, Idle, 1) && t'.threads == t.threads
    ensures t'.entered == u.entered && t'.left == u.left
  {
    hide Reaches, Inv;
    t' := More(s, u, Advance(i));
    t' := More(s, t', Advance(i));
  }

  lemma InsertWrite(s: State, t: State, u: State, i: nat, item: Conn) returns (t': State)
    requires Reaches(s, u) && Inv(u) && 0 < t.n == |t.slots| && OnlyBy(t, u, i, InsBump(item, u.rear), 0)
    ensures Reaches(s, t') && Inv(t') && OnlyBy(t, t', i, InsUnlock(item), 0)
    ensures t'.entered == u.entered + [item] && t'.left == u.left
  {
    hide Reaches, Inv;
    t' := More(s, u, Advance(i));
    t' := More(s, t', Advance(i));
    t' := More(s, t', Advance(i));
  }

  lemma RemoveCall(s: State, t: State, i: nat) returns (t': State)
    requires Reaches(s, t) && Inv(t) && Quiet(t) && i < |t.threads| && |t.left| < |t.entered|
    ensures Reaches(s, t') && Inv(t') && After(t, t', [], 1)
  {
    QuietCounts(t);
    hide Reaches, Inv, Do, Enabled;
    t' := RemoveLock(s, t, i);
    t' := RemoveRead(s, t, t', i);
    t' := RemovePost(s, t, t', i);
  }

  lemma RemoveLock(s: State, t: State, i: nat) returns (t': State)
    requires Reaches(s, t) && Inv(t) && Quiet(t) && i < |t.threads| && 0 < t.n == |t.slots| && t.items > 0
    ensures Reaches(s, t') && Inv(t') && SoFarOnly(t, t', i, RemBump(t'.front), 0)
  {
    hide Reaches, Inv;
    t' := More(s, t, StartRemove(i));
    t' := More(s, t', Advance(i));
    t' := More(s, t', Advance(i));
    t' := More(s, t', Advance(i));
  }

  lemma RemovePost(s: State, t: State, u: State, i: nat) returns (t': State)
    requires Reaches(s, u) && Inv(u) && Quiet(t) && 0 < t.n == |t.slots|
    requires i < |u.threads| && u.threads[i].RemUnlock? && OnlyBy(t, u, i, u.threads[i], 0)
    ensures Reaches(s, t') && Inv(t') && OnlyBy(t, t', i, Idle, 1) && t'.threads == t.threads
    ensures t'.entered == u.entered && t'.left == u.left
  {
    hide Reaches, Inv;
    t' := More(s, u, Advance(i));
    t' := More(s, t', Advance(i));
  }

  lemma RemoveRead(s: State, t: State, u: State, i: nat) returns (t': State)
    requires Reaches(s, u) && Inv(u) && 0 < t.n == |t.slots| && OnlyBy(t, u, i, RemBump(u.front), 0)
    ensures Reaches(s, t') && Inv(t') && i < |t'.threads| && t'.threads[i].RemUnlock? && OnlyBy(t, t', i, t'.threads[i], 0)
    ensures t'.entered == u.entered && |t'.left| == |u.left| + 1
  {
    hide Reaches, Inv;
    t' := More(s, u, Advance(i));
    t' := More(s, t', Advance(i));
    t' := More(s, t', Advance(i));
  }

  /** A sync takes the mutex and the handler gives it back. */
  lemma SyncCall(s: State, t: State, i: nat) returns (t': State)
    requires Reaches(s, t) && Inv(t) && Quiet(t) && i < |t.threads|
    ensures Reaches(s, t') && Inv(t') && t' == t
  {
    t' := SyncLocked(s, t, i);
    hide Reaches, Inv;
    t' := More(s, t', Handler);
  }

  lemma SyncLocked(s: State, t: State, i: nat) returns (t': State)
    requires Reaches(s, t) && Inv(t) && Quiet(t) && i < |t.threads|
    ensures Reaches(s, t') && Inv(t') && t' == t.(mutex := 0, handlers := 1)
  {
    QuietCounts(t);
    hide Reaches, Inv;
    t' := SyncStart(s, t, i);
    t' := More(s, t', Advance(i));
    assert t'.threads == t.threads;
  }

  lemma SyncStart(s: State, t: State, i: nat) returns (t': State)
    requires Reaches(s, t) && Inv(t) && Quiet(t) && i < |t.threads| && 0 < t.n == |t.slots|
    ensures Reaches(s, t') && Inv(t') && t' == t.(mutex := 0, threads := t.threads[i := SyncKill])
  {
    hide Reaches, Inv;
    t' := More(s, t, StartSync(i));
    t' := More(s, t', Advance(i));
  }

  // ---------------------------------------------------------------- any sequence of calls

  datatype Call = Put(i: nat, item: Conn) | Get(i: nat) | Sync(i: nat)

  /** Made by existing threads, on a queue of `n` places that holds `held`, the calls never meet a full or an empty queue. */
  predicate Serveable(calls: seq<Call>, threads: nat, n: nat, held: int)
    decreases |calls|
  {
    calls == []
    || (&& calls[0].i < threads
        && (calls[0].Put? ==> held < n)
        && (calls[0].Get? ==> held > 0)
        && Serveable(calls[1..], threads, n, held + (if calls[0].Put? then 1 else if calls[0].Get? then -1 else 0)))
  }

  function Puts(calls: seq<Call>): seq<Conn> {
    if calls == [] then [] else (if calls[0].Put? then [calls[0].item] else []) + Puts(calls[1..])
  }

  function Gets(calls: seq<Call>): nat {
    if calls == [] then 0 else (if calls[0].Get? then 1 else 0) + Gets(calls[1..])
  }

  lemma OneCall(s: State, t: State, c: Call) returns (t': State)
    requires Reaches(s, t) && Inv(t) && Quiet(t) && c.i < |t.threads|
    requires (c.Put? ==> |t.entered| - |t.left| < t.n) && (c.Get? ==> |t.left| < |t.entered|)
    ensures Reaches(s, t') && Inv(t') && After(t, t', if c.Put? then [c.item] else [], if c.Get? then 1 else 0)
  {
    hide Reaches, Inv;
    match c
    case Put(i, item) => t' := InsertCall(s, t, i, item);
    case Get(i) => t' := RemoveCall(s, t, i);
    case Sync(i) => t' := SyncCall(s, t, i);
  }

  lemma {:induction false} ServeFrom(s: State, t: State, calls: seq<Call>) returns (t': State)
    requires Reaches(s, t) && Inv(t) && Quiet(t)
    requires Serveable(calls, |t.threads|, t.n, |t.entered| - |t.left|)
    ensures Reaches(s, t') && Inv(t') && After(t, t', Puts(calls), Gets(calls))
    decreases |calls|
  {
    hide Reaches, Inv, Quiet;
    t' := t;
    if calls != [] {
      var u := OneCall(s, t, calls[0]);
      t' := ServeFrom(s, u, calls[1..]);
    }
  }

  /**
   Any sequence of calls that a queue of `n` places can serve is served by some run: all calls return,
   and the calls of `sbuf_remove` together get the oldest connections.
   */
  lemma SequentialIsQueue(s: State, calls: seq<Call>)
    requires Initial(s) && Serveable(calls, |s.threads|, s.n, 0)
    ensures exists t ::
      && Reaches(s, t) && Quiet(t)
      && t.entered == Puts(calls) && Gets(calls) <= |Puts(calls)|
      && t.left == Puts(calls)[..Gets(calls)] && t.returned == multiset(t.left)
  {
    hide Inv;
    assert CanRun(s, []) && Run(s, []) == s;
    InitialInv(s);
    var t := ServeFrom(s, s, calls);
    QuietCounts(t);
    assert [] + Puts(calls) == Puts(calls);
  }
}
