/**
 The threaded stock server when its commands come one after the other: whichever threads take them,
 each runs to its end, and answers and counts are those of the sequential server's table.
 */
module StockSequential {
  import opened Machine
  import opened StockLocks
  import T = StockTree

  /** No command is in progress. */
  ghost predicate Quiet(t: State) {
    && Sized(t) && t.readerN == t.writerN == 0 && t.readerMutex == t.writerMutex == 1
    && (forall k :: 0 <= k < |t.locks| ==> t.locks[k] == 1)
    && (forall i :: 0 <= i < |t.threads| ==> t.threads[i] == Idle)
  }

  /** No order takes more than this. */
  const ANY: nat := 0x8000_0000

  // ---------------------------------------------------------------- single commands

  /** From the verdict to the reply. */
  lemma Leave(s: State, t: State, u: State, i: nat, o: Order, v: Verdict) returns (t': State)
    requires Reaches(s, u, ANY) && Quiet(t) && i < |t.threads|
    requires u == t.(counts := u.counts, writerN := 1, threads := t.threads[i := WLock2(o, v)]) && |u.counts| == |t.counts|
    ensures Reaches(s, t', ANY) && t' == t.(counts := u.counts, replies := t.replies + [Reply(i, o, v)])
  {
    hide Reaches;
    t' := ReachesMore(s, u, Advance(i), ANY);
    t' := ReachesMore(s, t', Advance(i), ANY);
    t' := ReachesMore(s, t', Advance(i), ANY);
    assert t' == u.(writerMutex := 0, writerN := 0, threads := t.threads[i := WUnlock2(o, v)]);
    t' := ReachesMore(s, t', Advance(i), ANY);
    assert t'.threads == t.threads;
  }

  /** What one order does to the counts, and its verdict. */
  function Dealt(ids: seq<int>, counts: seq<int>, o: Order): (seq<int>, Verdict)
    requires |ids| == |counts|
  {
    var k := Lookup(ids, o.id);
    if k == |ids| then (counts, NotFound)
    else if counts[k] + o.delta < 0 then (counts, NotEnough)
    else (counts[k := counts[k] + o.delta], Applied(k, o.delta))
  }

  /** The sum the order forms, if any, is an `int`. */
  predicate SumFits(ids: seq<int>, counts: seq<int>, o: Order)
    requires |ids| == |counts|
  {
    var k := Lookup(ids, o.id);
    k < |ids| ==> Fits(counts[k] + o.delta)
  }

  lemma OrderCall(s: State, t: State, i: nat, o: Order) returns (t': State)
    requires Reaches(s, t, ANY) && Quiet(t) && i < |t.threads| && SumFits(t.ids, t.counts, o)
    ensures Reaches(s, t', ANY) && Quiet(t')
    ensures var (counts, v) := Dealt(t.ids, t.counts, o);
      |counts| == |t.counts| && t' == t.(counts := counts, replies := t.replies + [Reply(i, o, v)])
  {
    hide Reaches;
    var at := Lookup(t.ids, o.id);
    t' := Enter(s, t, i, o, ANY);
    t' := ReachesMore(s, t', Advance(i), ANY);
    if at == |t.ids| {
      assert t'.threads == t.threads[i := WLock2(o, NotFound)];
      t' := Leave(s, t, t', i, o, NotFound);
    } else {
      t' := ReachesMore(s, t', Advance(i), ANY);
      if t.counts[at] + o.delta < 0 {
        assert t'.threads == t.threads[i := WLock2(o, NotEnough)];
        t' := Leave(s, t, t', i, o, NotEnough);
      } else {
        t' := Apply(s, t', i, o, at, ANY);
        assert t'.threads == t.threads[i := WLock2(o, Applied(at, o.delta))];
        t' := Leave(s, t, t', i, o, Applied(at, o.delta));
      }
    }
  }

  lemma ShowCall(s: State, t: State, i: nat) returns (t': State)
    requires Reaches(s, t, ANY) && Quiet(t) && i < |t.threads|
    ensures Reaches(s, t', ANY) && t' == t
  {
    hide Reaches;
    t' := ReachesMore(s, t, StartShow(i), ANY);
    t' := ReachesMore(s, t', Advance(i), ANY);
    t' := ReachesMore(s, t', Advance(i), ANY);
    t' := ReachesMore(s, t', Advance(i), ANY);
    t' := ReachesMore(s, t', Advance(i), ANY);
    t' := ReachesMore(s, t', Advance(i), ANY);
    assert t' == t.(readerN := 1, threads := t.threads[i := RShow]);
    t' := ShowLeave(s, t, t', i);
  }

  lemma ShowLeave(s: State, t: State, u: State, i: nat) returns (t': State)
    requires Reaches(s, u, ANY) && Quiet(t) && i < |t.threads| && u == t.(readerN := 1, threads := t.threads[i := RShow])
    ensures Reaches(s, t', ANY) && t' == t
  {
    hide Reaches;
    t' := ReachesMore(s, u, Advance(i), ANY);
    t' := ReachesMore(s, t', Advance(i), ANY);
    t' := ReachesMore(s, t', Advance(i), ANY);
    t' := ReachesMore(s, t', Advance(i), ANY);
    t' := ReachesMore(s, t', Advance(i), ANY);
    assert t'.threads == t.threads;
  }

  // ---------------------------------------------------------------- any sequence of commands

  /** A command and the thread that takes it. */
  datatype Request = Show(i: nat) | Deal(i: nat, c: T.Command)

  function OrderOf(c: T.Command): Order { Order(c.id, T.Delta(c)) }

  /** What the sequential server makes of it: the table, and the status unless it only prints. */
  function Sequential(t: T.Tree, r: Request): (T.Tree, seq<T.Status>) {
    match r
    case Show(_) => (t, [])
    case Deal(_, c) => var (t', st) := T.Execute(t, c); (t', [st])
  }

  function SequentialAll(t: T.Tree, rs: seq<Request>): (T.Tree, seq<T.Status>)
    decreases |rs|
  {
    if rs == [] then (t, [])
    else
      var (t', sts) := Sequential(t, rs[0]);
      var (t'', sts') := SequentialAll(t', rs[1..]);
      (t'', sts + sts')
  }

  function StatusOf(v: Verdict): T.Status {
    match v
    case Applied(_, _) => T.SUCCESS
    case NotFound => T.ERROR
    case NotEnough => T.NOTENOUGHERR
  }

  function Statuses(rs: seq<Reply>): seq<T.Status> {
    if rs == [] then [] else Statuses(rs[..|rs| - 1]) + [StatusOf(rs[|rs| - 1].v)]
  }

  /** The sum a command forms in the table, if any, is an `int`. */
  predicate Defined(t: T.Tree, r: Request) {
    r.Deal? && T.Find(t, r.c.id).Some? ==> Fits(T.Find(t, r.c.id).value.count + T.Delta(r.c))
  }

  predicate AllDefined(t: T.Tree, rs: seq<Request>, threads: nat)
    decreases |rs|
  {
    rs == [] || (rs[0].i < threads && Defined(t, rs[0]) && AllDefined(Sequential(t, rs[0]).0, rs[1..], threads))
  }

  /** Both servers give every id the same count. */
  ghost predicate Mirrors(t: T.Tree, ids: seq<int>, counts: seq<int>) {
    && |ids| == |counts|
    && forall id: int :: var k := Lookup(ids, id);
         if k == |ids| then T.Find(t, id).None? else T.Find(t, id).Some? && T.Find(t, id).value.count == counts[k]
  }

  lemma MirrorAt(t: T.Tree, ids: seq<int>, counts: seq<int>, id: int)
    requires Mirrors(t, ids, counts)
    ensures var k := Lookup(ids, id);
      if k == |ids| then T.Find(t, id).None? else T.Find(t, id).Some? && T.Find(t, id).value.count == counts[k]
  {}

  lemma DealtMirrors(t: T.Tree, ids: seq<int>, counts: seq<int>, c: T.Command)
    requires Mirrors(t, ids, counts) && Defined(t, Deal(0, c))
    ensures SumFits(ids, counts, OrderOf(c))
    ensures var (counts', v) := Dealt(ids, counts, OrderOf(c));
      Mirrors(T.Execute(t, c).0, ids, counts') && StatusOf(v) == T.Execute(t, c).1
  {
    var id := c.id;
    MirrorAt(t, ids, counts, id);
    var (counts', v) := Dealt(ids, counts, OrderOf(c));
    if v.Applied? {
      var n: int32 := counts'[v.at];
      T.SetCountLocal(t, id, n);
      forall other: int
        ensures var k := Lookup(ids, other);
          if k == |ids| then T.Find(T.SetCount(t, id, n), other).None?
          else T.Find(T.SetCount(t, id, n), other).Some? && T.Find(T.SetCount(t, id, n), other).value.count == counts'[k]
      {
        MirrorAt(t, ids, counts, other);
        if other != id { T.SetCountOther(t, id, n, other); }
      }
    }
  }

  lemma OneRequest(s: State, t: State, table: T.Tree, r: Request) returns (t': State)
    requires Reaches(s, t, ANY) && Quiet(t) && Mirrors(table, t.ids, t.counts)
    requires r.i < |t.threads| && Defined(table, r)
    ensures Reaches(s, t', ANY) && Quiet(t') && |t'.threads| == |t.threads|
    ensures Mirrors(Sequential(table, r).0, t'.ids, t'.counts)
    ensures Statuses(t'.replies) == Statuses(t.replies) + Sequential(table, r).1
  {
    hide Reaches, Quiet, Mirrors, Dealt, T.Execute;
    match r
    case Show(i) =>
      t' := ShowCall(s, t, i);
      assert Statuses(t.replies) + [] == Statuses(t.replies);
    case Deal(i, c) =>
      assert Sized(t) by { QuietSized(t); }
      DealtMirrors(table, t.ids, t.counts, c);
      t' := OrderCall(s, t, i, OrderOf(c));
      assert t'.replies[..|t'.replies| - 1] == t.replies;
  }

  lemma QuietSized(t: State)
    requires Quiet(t)
    ensures Sized(t)
  {}

  lemma {:induction false} RequestsFrom(s: State, t: State, table: T.Tree, rs: seq<Request>) returns (t': State)
    requires Reaches(s, t, ANY) && Quiet(t) && Mirrors(table, t.ids, t.counts) && AllDefined(table, rs, |t.threads|)
    ensures Reaches(s, t', ANY) && Quiet(t') && Mirrors(SequentialAll(table, rs).0, t'.ids, t'.counts)
    ensures Statuses(t'.replies) == Statuses(t.replies) + SequentialAll(table, rs).1
    decreases |rs|
  {
    hide Reaches, Quiet, Mirrors, Defined, Sequential, Statuses;
    t' := t;
    if rs == [] {
      assert Statuses(t.replies) + [] == Statuses(t.replies);
    } else {
      var u := OneRequest(s, t, table, rs[0]);
      t' := RequestsFrom(s, u, Sequential(table, rs[0]).0, rs[1..]);
    }
  }

  function Ids(rs: seq<T.Record>): seq<int> { seq(|rs|, k requires 0 <= k < |rs| => rs[k].id) }

  function Counts(rs: seq<T.Record>): seq<int> { seq(|rs|, k requires 0 <= k < |rs| => rs[k].count) }

  lemma {:induction false} FirstIsLookup(rs: seq<T.Record>, id: int)
    ensures var k := Lookup(Ids(rs), id);
      T.FirstWith(rs, id) == if k == |rs| then T.None else T.Some(rs[k])
  {
    if rs != [] {
      assert Ids(rs)[1..] == Ids(rs[1..]);
      FirstIsLookup(rs[1..], id);
    }
  }

  lemma FreshMirrors(rs: seq<T.Record>)
    ensures Mirrors(T.InsertAll(T.Leaf, rs), Ids(rs), Counts(rs))
  {
    forall id: int
      ensures var k := Lookup(Ids(rs), id); var t := T.InsertAll(T.Leaf, rs);
        if k == |rs| then T.Find(t, id).None? else T.Find(t, id).Some? && T.Find(t, id).value.count == Counts(rs)[k]
    {
      T.FindIsFirstInserted(rs, id);
      FirstIsLookup(rs, id);
    }
  }

  /**
   Both servers loaded with the same records: any sequence of commands, given to any threads one after the
   other and forming no sum outside `int`, is served by some run, with the sequential server's answers in
   order and its counts for every id.
   */
  lemma SequentialRun(s: State, records: seq<T.Record>, rs: seq<Request>)
    requires Initial(s) && s.ids == Ids(records) && s.counts == Counts(records)
    requires AllDefined(T.InsertAll(T.Leaf, records), rs, |s.threads|)
    ensures var (table, statuses) := SequentialAll(T.InsertAll(T.Leaf, records), rs);
      exists t :: Reaches(s, t, ANY) && Quiet(t) && Mirrors(table, t.ids, t.counts) && Statuses(t.replies) == statuses
  {
    hide Reaches, Mirrors;
    ReachesSelf(s, ANY);
    FreshMirrors(records);
    var table := T.InsertAll(T.Leaf, records);
    var t := RequestsFrom(s, s, table, rs);
    assert Statuses(t.replies) == [] + SequentialAll(table, rs).1;
    assert [] + SequentialAll(table, rs).1 == SequentialAll(table, rs).1;
  }
}
