/**
 What the threaded stock server answers.  In every interleaving each thread answers its orders in turn,
 an order is not found exactly if no stock has its id, and a refusal or an acceptance was right at the
 moment of the thread's check; the counts are the initial ones plus the accepted orders.
 */
module StockReplies {
  import opened StockLocks

  // ---------------------------------------------------------------- every order is answered

  function AskedBy(a: Action, i: nat): seq<Order> { if a.StartOrder? && a.i == i then [a.o] else [] }

  /** The orders that thread `i` takes on in a run. */
  function Asked(acts: seq<Action>, i: nat): seq<Order> {
    if acts == [] then [] else AskedBy(acts[0], i) + Asked(acts[1..], i)
  }

  function AnsweredIn(r: Reply, i: nat): seq<Order> { if r.i == i then [r.o] else [] }

  /** The orders that thread `i` has answered. */
  function Answered(rs: seq<Reply>, i: nat): seq<Order> {
    if rs == [] then [] else Answered(rs[..|rs| - 1], i) + AnsweredIn(rs[|rs| - 1], i)
  }

  /** The order a thread is working on. */
  function InHand(pc: Pc): seq<Order> {
    if pc.WLock? || pc.WLoad? || pc.WBump? || pc.WUnlock? || pc.WSpin? || pc.WFind? || pc.WCheck?
       || pc.NLock? || pc.NLoad? || pc.NStore? || pc.NUnlock?
       || pc.WLock2? || pc.WLoad2? || pc.WDrop? || pc.WUnlock2?
    then [pc.o] else []
  }

  function Progress(s: State, i: nat): seq<Order>
    requires i < |s.threads|
  {
    Answered(s.replies, i) + InHand(s.threads[i])
  }

  lemma AnsweredSnoc(rs: seq<Reply>, r: Reply, i: nat)
    ensures Answered(rs + [r], i) == Answered(rs, i) + AnsweredIn(r, i)
  {
    assert (rs + [r])[..|rs|] == rs;
  }

  /** What a step of thread `i` does to the replies and to the order in its hand. */
  lemma RepliesOrKeeps(s: State, i: nat)
    requires Enabled(s, Advance(i))
    ensures var t, pc := Next(s, i), s.threads[i];
      if pc.WUnlock2? then t.replies == s.replies + [Reply(i, pc.o, pc.v)] && InHand(pc) == [pc.o] && InHand(t.threads[i]) == []
      else t.replies == s.replies && InHand(t.threads[i]) == InHand(pc)
  {}

  lemma StepProgress(s: State, a: Action, i: nat)
    requires Enabled(s, a) && i < |s.threads|
    ensures |Do(s, a).threads| == |s.threads| && Progress(Do(s, a), i) == Progress(s, i) + AskedBy(a, i)
  {
    hide Next, Answered, InHand;
    var t := Do(s, a);
    if a.Advance? {
      var pc := s.threads[a.i];
      ThreadsAfter(s, a.i);
      RepliesOrKeeps(s, a.i);
      if pc.WUnlock2? { AnsweredSnoc(s.replies, Reply(a.i, pc.o, pc.v), i); }
    } else if a.i == i {
      StartsInHand(s, a);
    }
    assert Progress(s, i) + [] == Progress(s, i);
  }

  lemma StartsInHand(s: State, a: Action)
    requires Enabled(s, a) && !a.Advance?
    ensures InHand(s.threads[a.i]) == [] && InHand(Do(s, a).threads[a.i]) == AskedBy(a, a.i)
  {}

  lemma {:induction false} RunProgress(s: State, acts: seq<Action>, i: nat)
    requires CanRun(s, acts) && i < |s.threads|
    ensures |Run(s, acts).threads| == |s.threads| && Progress(Run(s, acts), i) == Progress(s, i) + Asked(acts, i)
    decreases |acts|
  {
    hide Do, Enabled, Progress;
    if acts == [] {
      assert Progress(s, i) + [] == Progress(s, i);
    } else {
      StepProgress(s, acts[0], i);
      RunProgress(Do(s, acts[0]), acts[1..], i);
      assert Progress(s, i) + AskedBy(acts[0], i) + Asked(acts[1..], i)
        == Progress(s, i) + (AskedBy(acts[0], i) + Asked(acts[1..], i));
    }
  }

  /** Every thread answers the orders it takes on, each once and in turn; the last may still be in hand. */
  lemma RunAnswersAll(s: State, acts: seq<Action>, i: nat)
    requires Initial(s) && CanRun(s, acts) && i < |s.threads|
    ensures i < |Run(s, acts).threads|
    ensures Asked(acts, i) == Answered(Run(s, acts).replies, i) + InHand(Run(s, acts).threads[i])
  {
    hide Run, CanRun, Asked;
    RunProgress(s, acts, i);
    assert Progress(s, i) == [];
    assert [] + Asked(acts, i) == Asked(acts, i);
  }

  // ---------------------------------------------------------------- the answers are true

  /** Position `k` is the first with this id. */
  predicate FirstAt(ids: seq<int>, id: int, k: nat) {
    k < |ids| && ids[k] == id && forall j :: 0 <= j < k ==> ids[j] != id
  }

  predicate Absent(ids: seq<int>, id: int) { forall j :: 0 <= j < |ids| ==> ids[j] != id }

  /** A verdict that can be true of an order. */
  predicate Fair(ids: seq<int>, o: Order, v: Verdict) {
    match v
    case NotFound => Absent(ids, o.id)
    case NotEnough => !Absent(ids, o.id)
    case Applied(at, delta) => FirstAt(ids, o.id, at) && delta == o.delta
  }

  /** What a thread knows about the order in its hand. */
  predicate Knows(ids: seq<int>, pc: Pc) {
    && (pc.WCheck? || pc.NLock? || pc.NLoad? || pc.NStore? || pc.NUnlock? ==> FirstAt(ids, pc.o.id, pc.at))
    && (pc.WLock2? || pc.WLoad2? || pc.WDrop? || pc.WUnlock2? ==> Fair(ids, pc.o, pc.v))
  }

  ghost predicate AllFair(s: State) {
    && (forall i :: 0 <= i < |s.threads| ==> Knows(s.ids, s.threads[i]))
    && (forall j :: 0 <= j < |s.replies| ==> Fair(s.ids, s.replies[j].o, s.replies[j].v))
  }

  lemma OwnKnows(s: State, i: nat)
    requires Enabled(s, Advance(i)) && Knows(s.ids, s.threads[i])
    ensures Knows(s.ids, Next(s, i).threads[i])
  {
    hide Reported, Pending;
    var pc := s.threads[i];
    if pc.WFind? {
      FoundOrAbsent(s.ids, pc.o.id);
      hide Lookup;
    } else {
      hide Lookup;
      if pc.WCheck? { assert s.ids[pc.at] == pc.o.id; }
    }
  }

  lemma FoundOrAbsent(ids: seq<int>, id: int)
    ensures if Lookup(ids, id) == |ids| then Absent(ids, id) else FirstAt(ids, id, Lookup(ids, id))
  {}

  lemma FairStep(s: State, a: Action)
    requires AllFair(s) && Enabled(s, a)
    ensures AllFair(Do(s, a))
  {
    hide Knows, Fair;
    var t := Do(s, a);
    DoFixed(s, a);
    if a.Advance? {
      ThreadsAfter(s, a.i);
      OwnKnows(s, a.i);
      if s.threads[a.i].WUnlock2? { KnowsVerdict(s.ids, s.threads[a.i]); }
    } else {
      Outside(s.ids, t.threads[a.i]);
    }
  }

  lemma Outside(ids: seq<int>, pc: Pc)
    requires pc.RSpin? || pc.WLock? || pc.Idle?
    ensures Knows(ids, pc)
  {}

  lemma KnowsVerdict(ids: seq<int>, pc: Pc)
    requires Knows(ids, pc) && pc.WUnlock2?
    ensures Fair(ids, pc.o, pc.v)
  {}

  lemma {:induction false} RunFair(s: State, acts: seq<Action>)
    requires AllFair(s) && CanRun(s, acts)
    ensures AllFair(Run(s, acts)) && Run(s, acts).ids == s.ids
    decreases |acts|
  {
    hide AllFair, Do, Enabled;
    if acts != [] {
      FairStep(s, acts[0]);
      DoFixed(s, acts[0]);
      RunFair(Do(s, acts[0]), acts[1..]);
    }
  }

  lemma NothingSaid(s: State)
    requires Initial(s)
    ensures AllFair(s)
  {
    forall i | 0 <= i < |s.threads| ensures Knows(s.ids, s.threads[i]) { Outside(s.ids, s.threads[i]); }
  }

  /** In every interleaving an order is answered `NotFound` exactly if no stock has its id; an accepted one names the first that has. */
  lemma RunAnswersTruly(s: State, acts: seq<Action>, r: Reply)
    requires Initial(s) && CanRun(s, acts) && r in Run(s, acts).replies
    ensures r.v == NotFound <==> forall j :: 0 <= j < |s.ids| ==> s.ids[j] != r.o.id
    ensures r.v.Applied? ==> FirstAt(s.ids, r.o.id, r.v.at) && r.v.delta == r.o.delta
  {
    hide Initial, Run, CanRun;
    NothingSaid(s);
    RunFair(s, acts);
    assert Fair(s.ids, r.o, r.v);
  }

  // ---------------------------------------------------------------- no accepted order is lost

  /** The sum of the accepted orders for an id. */
  function Accepted(rs: seq<Reply>, id: int): int {
    if rs == [] then 0
    else
      var r := rs[|rs| - 1];
      (if r.v.Applied? && r.o.id == id then r.o.delta else 0) + Accepted(rs[..|rs| - 1], id)
  }

  lemma {:induction false} AcceptedIsReported(rs: seq<Reply>, ids: seq<int>, k: nat)
    requires k < |ids| && forall j :: 0 <= j < |rs| ==> Fair(ids, rs[j].o, rs[j].v)
    ensures Reported(rs, k) == if FirstAt(ids, ids[k], k) then Accepted(rs, ids[k]) else 0
  {
    if rs != [] { AcceptedIsReported(rs[..|rs| - 1], ids, k); }
  }

  /**
   In every interleaving, when no update of a stock waits for its reply, the count of the first stock with
   an id is its initial value plus all accepted orders for that id; a later stock with the same id is untouched.
   */
  lemma RunSumsAccepted(s: State, acts: seq<Action>, k: nat)
    requires Initial(s) && CanRun(s, acts) && k < |s.ids|
    requires forall i :: 0 <= i < |Run(s, acts).threads| ==> Unreported(Run(s, acts).threads[i], k) == 0
    ensures var t := Run(s, acts);
      && k < |t.counts|
      && t.counts[k] == s.initial[k] + if FirstAt(s.ids, s.ids[k], k) then Accepted(t.replies, s.ids[k]) else 0
  {
    hide Run, CanRun, FirstAt, Unreported;
    RunLosesNothing(s, acts, k);
    NothingSaid(s);
    RunFair(s, acts);
    AcceptedIsReported(Run(s, acts).replies, s.ids, k);
  }

  // ---------------------------------------------------------------- the answers were right when they were made

  lemma {:induction false} PrefixRuns(s: State, acts: seq<Action>, n: nat)
    requires CanRun(s, acts) && n <= |acts|
    ensures CanRun(s, acts[..n])
    decreases |acts|
  {
    hide Do, Enabled;
    if n > 0 {
      PrefixRuns(Do(s, acts[0]), acts[1..], n - 1);
      assert acts[..n][1..] == acts[1..][..n - 1];
    }
  }

  lemma {:induction false} PrefixStep(s: State, acts: seq<Action>, n: nat)
    requires CanRun(s, acts) && n < |acts|
    ensures CanRun(s, acts[..n]) && CanRun(s, acts[..n + 1])
    ensures Enabled(Run(s, acts[..n]), acts[n]) && Run(s, acts[..n + 1]) == Do(Run(s, acts[..n]), acts[n])
    decreases |acts|
  {
    hide Do, Enabled;
    PrefixRuns(s, acts, n);
    PrefixRuns(s, acts, n + 1);
    if n == 0 {
      assert acts[..1][1..] == [];
    } else {
      PrefixStep(Do(s, acts[0]), acts[1..], n - 1);
      assert acts[..n][1..] == acts[1..][..n - 1];
      assert acts[..n + 1][1..] == acts[1..][..n];
    }
  }

  /** Thread `i` is at its check of order `o`, and the stock has enough, or not. */
  predicate Checks(t: State, i: nat, o: Order, enough: bool) {
    && i < |t.threads| && t.threads[i].WCheck? && t.threads[i].o == o
    && t.threads[i].at < |t.counts| && (t.counts[t.threads[i].at] + o.delta >= 0 <==> enough)
  }

  /** At some point of the run. */
  ghost predicate Checked(s: State, acts: seq<Action>, i: nat, o: Order, enough: bool) {
    exists j :: 0 <= j <= |acts| && CanRun(s, acts[..j]) && Checks(Run(s, acts[..j]), i, o, enough)
  }

  /** A thread that is past its check has made it. */
  ghost predicate PastCheck(s: State, acts: seq<Action>, i: nat, pc: Pc) {
    && (pc.NLock? || pc.NLoad? || pc.NStore? || pc.NUnlock? ==> Checked(s, acts, i, pc.o, true))
    && (pc.WLock2? || pc.WLoad2? || pc.WDrop? || pc.WUnlock2? ==>
          (pc.v.Applied? ==> Checked(s, acts, i, pc.o, true)) && (pc.v.NotEnough? ==> Checked(s, acts, i, pc.o, false)))
  }

  ghost predicate Rightly(s: State, acts: seq<Action>, r: Reply) {
    && (r.v.Applied? ==> Checked(s, acts, r.i, r.o, true))
    && (r.v.NotEnough? ==> Checked(s, acts, r.i, r.o, false))
  }

  ghost predicate AllRight(s: State, acts: seq<Action>, t: State) {
    && (forall i :: 0 <= i < |t.threads| ==> PastCheck(s, acts, i, t.threads[i]))
    && (forall j :: 0 <= j < |t.replies| ==> Rightly(s, acts, t.replies[j]))
  }

  /** One step of thread `i` from `t`, which the run passes after `n` actions. */
  lemma OwnCheck(s: State, acts: seq<Action>, n: nat, t: State, i: nat)
    requires n <= |acts| && CanRun(s, acts[..n]) && Run(s, acts[..n]) == t && Enabled(t, Advance(i))
    requires PastCheck(s, acts, i, t.threads[i])
    ensures PastCheck(s, acts, i, Next(t, i).threads[i])
    ensures t.threads[i].WUnlock2? ==> Rightly(s, acts, Reply(i, t.threads[i].o, t.threads[i].v))
  {
    hide Checked, Run, CanRun;
    var pc := t.threads[i];
    if pc.WCheck? {
      var enough := t.counts[pc.at] + pc.o.delta >= 0;
      CheckedHere(s, acts, n, t, i, pc.o, enough);
    }
  }

  lemma CheckedHere(s: State, acts: seq<Action>, n: nat, t: State, i: nat, o: Order, enough: bool)
    requires n <= |acts| && CanRun(s, acts[..n]) && Run(s, acts[..n]) == t && Checks(t, i, o, enough)
    ensures Checked(s, acts, i, o, enough)
  {}

  lemma RightStep(s: State, acts: seq<Action>, n: nat, t: State, a: Action)
    requires n <= |acts| && CanRun(s, acts[..n]) && Run(s, acts[..n]) == t && Enabled(t, a) && AllRight(s, acts, t)
    ensures AllRight(s, acts, Do(t, a))
  {
    hide PastCheck, Rightly, Run, CanRun;
    if a.Advance? {
      ThreadsAfter(t, a.i);
      OwnCheck(s, acts, n, t, a.i);
    } else {
      NotPast(s, acts, a.i, Do(t, a).threads[a.i]);
    }
  }

  lemma NotPast(s: State, acts: seq<Action>, i: nat, pc: Pc)
    requires pc.RSpin? || pc.WLock? || pc.Idle?
    ensures PastCheck(s, acts, i, pc)
  {}

  lemma {:induction false} PrefixRight(s: State, acts: seq<Action>, n: nat)
    requires Initial(s) && CanRun(s, acts) && n <= |acts|
    ensures CanRun(s, acts[..n]) && AllRight(s, acts, Run(s, acts[..n]))
  {
    PrefixRuns(s, acts, n);
    hide AllRight, Do, Enabled;
    if n == 0 {
      NothingChecked(s, acts);
    } else {
      PrefixRight(s, acts, n - 1);
      PrefixStep(s, acts, n - 1);
      RightStep(s, acts, n - 1, Run(s, acts[..n - 1]), acts[n - 1]);
    }
  }

  lemma NothingChecked(s: State, acts: seq<Action>)
    requires Initial(s)
    ensures AllRight(s, acts, s)
  {
    hide PastCheck;
    forall i | 0 <= i < |s.threads| ensures PastCheck(s, acts, i, s.threads[i]) { NotPast(s, acts, i, s.threads[i]); }
  }

  /** Thread `i` is at its check of order `o`: on the first stock with its id, with enough of it or not. */
  ghost predicate Decides(t: State, i: nat, o: Order, enough: bool) {
    Checks(t, i, o, enough) && FirstAt(t.ids, o.id, t.threads[i].at)
  }

  /**
   In every interleaving, whoever answers that there is enough, or that there is not, was right about it at
   some point of the run: at that thread's check of this very order.
   */
  lemma RunAnswersRightly(s: State, acts: seq<Action>, r: Reply)
    requires Initial(s) && CanRun(s, acts) && r in Run(s, acts).replies && r.v != NotFound
    ensures exists j :: 0 <= j <= |acts| && CanRun(s, acts[..j]) && Decides(Run(s, acts[..j]), r.i, r.o, r.v.Applied?)
  {
    hide Run, CanRun, Initial, FirstAt;
    PrefixRight(s, acts, |acts|);
    assert acts[..|acts|] == acts;
    assert Rightly(s, acts, r);
    var j :| 0 <= j <= |acts| && CanRun(s, acts[..j]) && Checks(Run(s, acts[..j]), r.i, r.o, r.v.Applied?);
    NothingSaid(s);
    RunFair(s, acts[..j]);
    assert Knows(s.ids, Run(s, acts[..j]).threads[r.i]);
  }
}
