/** The stock table as a search tree of records: insertion, lookup, `buy` and `sell`. */
module StockTree {
  import opened Machine

  datatype Record = Record(id: int32, count: int32, price: int32)

  datatype Option<T> = None | Some(value: T)

  datatype Tree = Leaf | Node(left: Tree, rec: Record, right: Tree)

  datatype Status = SUCCESS | ERROR | NOTENOUGHERR

  /** Smaller ids go left; equal and larger ones go right. */
  function Insert(t: Tree, r: Record): Tree {
    match t
    case Leaf => Node(Leaf, r, Leaf)
    case Node(left, x, right) =>
      if x.id > r.id then Node(Insert(left, r), x, right) else Node(left, x, Insert(right, r))
  }

  function InsertAll(t: Tree, rs: seq<Record>): Tree
    decreases |rs|
  {
    if rs == [] then t else InsertAll(Insert(t, rs[0]), rs[1..])
  }

  function Find(t: Tree, id: int): Option<Record> {
    match t
    case Leaf => None
    case Node(left, x, right) =>
      if id == x.id then Some(x) else if id > x.id then Find(right, id) else Find(left, id)
  }

  /** The tree with the count of the record that `Find` meets replaced. */
  function SetCount(t: Tree, id: int, count: int32): Tree {
    match t
    case Leaf => Leaf
    case Node(left, x, right) =>
      if id == x.id then Node(left, x.(count := count), right)
      else if id > x.id then Node(left, x, SetCount(right, id, count))
      else Node(SetCount(left, id, count), x, right)
  }

  /** The sum is that of two `int`s. */
  function Modify(t: Tree, id: int, delta: int32): (Tree, Status) {
    match Find(t, id)
    case None => (t, ERROR)
    case Some(x) =>
      var sum := Wrap32(x.count + delta);
      if sum < 0 then (t, NOTENOUGHERR) else (SetCount(t, id, sum), SUCCESS)
  }

  function Preorder(t: Tree): seq<Record> {
    match t
    case Leaf => []
    case Node(left, x, right) => [x] + Preorder(left) + Preorder(right)
  }

  predicate AllBelow(rs: seq<Record>, id: int) { forall i :: 0 <= i < |rs| ==> rs[i].id < id }

  predicate AllFrom(rs: seq<Record>, id: int) { forall i :: 0 <= i < |rs| ==> id <= rs[i].id }

  predicate Ordered(t: Tree) {
    match t
    case Leaf => true
    case Node(left, x, right) =>
      Ordered(left) && Ordered(right) && AllBelow(Preorder(left), x.id) && AllFrom(Preorder(right), x.id)
  }

  // ---------------------------------------------------------------- insertion

  lemma SplitNode(left: Tree, x: Record, right: Tree)
    ensures Preorder(Node(left, x, right)) == [x] + Preorder(left) + Preorder(right)
  {}

  function WithAt(s: seq<Record>, k: nat, r: Record): seq<Record>
    requires k <= |s|
  {
    s[..k] + [r] + s[k..]
  }

  /** Where in preorder a new record ends up. */
  function Place(t: Tree, r: Record): nat {
    match t
    case Leaf => 0
    case Node(left, x, right) => if x.id > r.id then 1 + Place(left, r) else 1 + |Preorder(left)| + Place(right, r)
  }

  /** Insertion adds the new record at one place and leaves all others as they were, in order. */
  lemma {:induction false} InsertAdds(t: Tree, r: Record)
    ensures Place(t, r) <= |Preorder(t)|
    ensures Preorder(Insert(t, r)) == WithAt(Preorder(t), Place(t, r), r)
  {
    match t
    case Leaf =>
    case Node(left, x, right) =>
      hide Preorder;
      var ls, rs := Preorder(left), Preorder(right);
      SplitNode(left, x, right);
      if x.id > r.id {
        InsertAdds(left, r);
        SplitNode(Insert(left, r), x, right);
        WithAtInPart([x], ls, rs, Place(left, r), r);
      } else {
        InsertAdds(right, r);
        SplitNode(left, x, Insert(right, r));
        WithAtInPart([x] + ls, rs, [], Place(right, r), r);
        assert [x] + ls + rs + [] == [x] + ls + rs;
        assert [x] + ls + WithAt(rs, Place(right, r), r) + [] == [x] + ls + WithAt(rs, Place(right, r), r);
      }
  }

  lemma WithAtInPart(a: seq<Record>, b: seq<Record>, c: seq<Record>, k: nat, r: Record)
    requires k <= |b|
    ensures a + WithAt(b, k, r) + c == WithAt(a + b + c, |a| + k, r)
  {}

  /** A bound that holds for the old records and the new one holds after insertion. */
  lemma InsertBounds(t: Tree, r: Record, id: int)
    ensures AllBelow(Preorder(t), id) && r.id < id ==> AllBelow(Preorder(Insert(t, r)), id)
    ensures AllFrom(Preorder(t), id) && id <= r.id ==> AllFrom(Preorder(Insert(t, r)), id)
  {
    hide Insert, Preorder, Place;
    InsertAdds(t, r);
  }

  lemma {:induction false} InsertOrdered(t: Tree, r: Record)
    requires Ordered(t)
    ensures Ordered(Insert(t, r))
  {
    match t
    case Leaf =>
    case Node(left, x, right) =>
      if x.id > r.id {
        InsertOrdered(left, r);
        InsertBounds(left, r, x.id);
      } else {
        InsertOrdered(right, r);
        InsertBounds(right, r, x.id);
      }
  }

  lemma {:induction false} InsertAllOrdered(t: Tree, rs: seq<Record>)
    requires Ordered(t)
    ensures Ordered(InsertAll(t, rs))
    decreases |rs|
  {
    if rs != [] {
      InsertOrdered(t, rs[0]);
      InsertAllOrdered(Insert(t, rs[0]), rs[1..]);
    }
  }

  lemma {:induction false} InsertAllConcat(t: Tree, rs: seq<Record>, qs: seq<Record>)
    ensures InsertAll(t, rs + qs) == InsertAll(InsertAll(t, rs), qs)
    decreases |rs|
  {
    if rs == [] {
      assert rs + qs == qs;
    } else {
      InsertAllConcat(Insert(t, rs[0]), rs[1..], qs);
      assert (rs + qs)[1..] == rs[1..] + qs;
    }
  }

  lemma {:induction false} InsertAllLeft(left: Tree, x: Record, right: Tree, rs: seq<Record>)
    requires AllBelow(rs, x.id)
    ensures InsertAll(Node(left, x, right), rs) == Node(InsertAll(left, rs), x, right)
    decreases |rs|
  {
    if rs != [] { InsertAllLeft(Insert(left, rs[0]), x, right, rs[1..]); }
  }

  lemma {:induction false} InsertAllRight(left: Tree, x: Record, right: Tree, rs: seq<Record>)
    requires AllFrom(rs, x.id)
    ensures InsertAll(Node(left, x, right), rs) == Node(left, x, InsertAll(right, rs))
    decreases |rs|
  {
    if rs != [] { InsertAllRight(left, x, Insert(right, rs[0]), rs[1..]); }
  }

  /** Inserting a search tree's records in preorder builds the same tree again, duplicates included. */
  lemma {:induction false} Rebuild(t: Tree)
    requires Ordered(t)
    ensures InsertAll(Leaf, Preorder(t)) == t
  {
    match t
    case Leaf =>
    case Node(left, x, right) =>
      var ls, rs := Preorder(left), Preorder(right);
      assert Preorder(t) == [x] + (ls + rs);
      InsertAllConcat(Leaf, [x], ls + rs);
      assert InsertAll(Leaf, [x]) == Node(Leaf, x, Leaf) by { assert [x][1..] == []; }
      InsertAllConcat(Node(Leaf, x, Leaf), ls, rs);
      InsertAllLeft(Leaf, x, Leaf, ls);
      InsertAllRight(InsertAll(Leaf, ls), x, Leaf, rs);
      Rebuild(left);
      Rebuild(right);
  }

  // ---------------------------------------------------------------- lookup

  function FirstWith(rs: seq<Record>, id: int): Option<Record> {
    if rs == [] then None else if rs[0].id == id then Some(rs[0]) else FirstWith(rs[1..], id)
  }

  lemma {:induction false} FindInserted(t: Tree, r: Record, id: int)
    ensures Find(Insert(t, r), id) == if Find(t, id).Some? then Find(t, id) else if r.id == id then Some(r) else None
  {
    match t
    case Leaf =>
    case Node(left, x, right) =>
      if x.id > r.id { FindInserted(left, r, id); } else { FindInserted(right, r, id); }
  }

  lemma {:induction false} FindInsertedAll(t: Tree, rs: seq<Record>, id: int)
    ensures Find(InsertAll(t, rs), id) == if Find(t, id).Some? then Find(t, id) else FirstWith(rs, id)
    decreases |rs|
  {
    if rs != [] {
      FindInserted(t, rs[0], id);
      FindInsertedAll(Insert(t, rs[0]), rs[1..], id);
    }
  }

  /** `find` in a table filled by insertions gives the first record inserted with that id. */
  lemma FindIsFirstInserted(rs: seq<Record>, id: int)
    ensures Find(InsertAll(Leaf, rs), id) == FirstWith(rs, id)
  {
    FindInsertedAll(Leaf, rs, id);
  }

  predicate NoneWith(rs: seq<Record>, id: int) { forall i :: 0 <= i < |rs| ==> rs[i].id != id }

  lemma NoneWithParts(x: Record, ls: seq<Record>, rs: seq<Record>, id: int)
    ensures NoneWith([x] + ls + rs, id) <==> x.id != id && NoneWith(ls, id) && NoneWith(rs, id)
  {
    var p := [x] + ls + rs;
    assert p[0] == x;
    assert forall i :: 0 <= i < |ls| ==> p[1 + i] == ls[i];
    assert forall i :: 0 <= i < |rs| ==> p[1 + |ls| + i] == rs[i];
    if NoneWith(p, id) {
      forall i | 0 <= i < |ls| ensures ls[i].id != id { assert p[1 + i].id != id; }
      forall i | 0 <= i < |rs| ensures rs[i].id != id { assert p[1 + |ls| + i].id != id; }
    }
  }

  /** In a search tree, lookup fails exactly for ids that no record has. */
  lemma {:induction false} FindComplete(t: Tree, id: int)
    requires Ordered(t)
    ensures Find(t, id).None? <==> NoneWith(Preorder(t), id)
  {
    match t
    case Leaf =>
    case Node(left, x, right) =>
      FindComplete(left, id);
      FindComplete(right, id);
      NoneWithParts(x, Preorder(left), Preorder(right), id);
  }

  // ---------------------------------------------------------------- buy and sell

  /** Position in preorder of the record `Find` meets. */
  function Position(t: Tree, id: int): nat {
    match t
    case Leaf => 0
    case Node(left, x, right) =>
      if id == x.id then 0
      else if id > x.id then 1 + |Preorder(left)| + Position(right, id)
      else 1 + Position(left, id)
  }

  /** Changing a count touches one record, the one found, and nothing else about it. */
  lemma {:induction false} SetCountLocal(t: Tree, id: int, count: int32)
    requires Find(t, id).Some?
    ensures Position(t, id) < |Preorder(t)| && Preorder(t)[Position(t, id)] == Find(t, id).value
    ensures Preorder(SetCount(t, id, count)) == Preorder(t)[Position(t, id) := Find(t, id).value.(count := count)]
    ensures Find(SetCount(t, id, count), id) == Some(Find(t, id).value.(count := count))
  {
    match t
    case Leaf =>
    case Node(left, x, right) =>
      hide Preorder;
      var ls, rs := Preorder(left), Preorder(right);
      SplitNode(left, x, right);
      if id == x.id {
        SplitNode(left, x.(count := count), right);
      } else if id > x.id {
        SetCountLocal(right, id, count);
        SplitNode(left, x, SetCount(right, id, count));
        UpdateInPart([x] + ls, rs, [], Position(right, id), Find(right, id).value.(count := count));
        assert [x] + ls + rs + [] == [x] + ls + rs;
      } else {
        SetCountLocal(left, id, count);
        SplitNode(SetCount(left, id, count), x, right);
        UpdateInPart([x], ls, rs, Position(left, id), Find(left, id).value.(count := count));
      }
  }

  lemma UpdateInPart(a: seq<Record>, b: seq<Record>, c: seq<Record>, i: nat, y: Record)
    requires i < |b|
    ensures (a + b + c)[|a| + i] == b[i] && (a + b + c)[|a| + i := y] == a + b[i := y] + c
  {}

  lemma {:induction false} SetCountOther(t: Tree, id: int, count: int32, other: int)
    requires other != id
    ensures Find(SetCount(t, id, count), other) == Find(t, other)
  {
    match t
    case Leaf =>
    case Node(left, x, right) =>
      SetCountOther(left, id, count, other);
      SetCountOther(right, id, count, other);
  }

  /** Same ids in the same places. */
  predicate SameIds(rs: seq<Record>, qs: seq<Record>) {
    |rs| == |qs| && forall i :: 0 <= i < |rs| ==> rs[i].id == qs[i].id
  }

  lemma {:induction false} SetCountIds(t: Tree, id: int, count: int32)
    ensures SameIds(Preorder(t), Preorder(SetCount(t, id, count)))
  {
    match t
    case Leaf =>
    case Node(left, x, right) =>
      SetCountIds(left, id, count);
      SetCountIds(right, id, count);
  }

  lemma {:induction false} SetCountOrdered(t: Tree, id: int, count: int32)
    requires Ordered(t)
    ensures Ordered(SetCount(t, id, count))
  {
    hide Preorder;
    match t
    case Leaf =>
    case Node(left, x, right) =>
      SetCountOrdered(left, id, count);
      SetCountOrdered(right, id, count);
      SetCountIds(left, id, count);
      SetCountIds(right, id, count);
  }

  /** A `sell` adds its argument, a `buy` adds its negation, itself an `int`. */
  datatype Command = Sell(id: int32, n: int32) | Buy(id: int32, n: int32)

  function Delta(c: Command): int32 { if c.Sell? then c.n else Wrap32(0 - c.n) }

  function Execute(t: Tree, c: Command): (Tree, Status) { Modify(t, c.id, Delta(c)) }

  function ExecuteAll(t: Tree, cs: seq<Command>): Tree
    decreases |cs|
  {
    if cs == [] then t else ExecuteAll(Execute(t, cs[0]).0, cs[1..])
  }

  predicate NonNegative(rs: seq<Record>) { forall i :: 0 <= i < |rs| ==> rs[i].count >= 0 }

  /** The sum of two `int`s is not negative exactly when it is right and so, or too small by far. */
  lemma SumExactly(x: int32, y: int32)
    ensures Wrap32(x + y) >= 0 <==> 0 <= x + y <= INT_MAX || x + y < INT_MIN
    ensures x + y > INT_MAX ==> Wrap32(x + y) == x + y - TWO32
    ensures x + y < INT_MIN ==> Wrap32(x + y) == x + y + TWO32
  {}

  lemma FoundNonNegative(t: Tree, id: int)
    requires Find(t, id).Some? && NonNegative(Preorder(t))
    ensures Find(t, id).value.count >= 0
  {
    SetCountLocal(t, id, 0);
  }

  /**
   When `modify` succeeds and what it then changes, for all `int`s; and that among non-negative counts
   it succeeds exactly if the true sum is a non-negative `int`, which becomes the count.
   */
  lemma ModifyKeeps(t: Tree, id: int, delta: int32)
    requires Ordered(t)
    ensures Ordered(Modify(t, id, delta).0)
    ensures NonNegative(Preorder(t)) ==> NonNegative(Preorder(Modify(t, id, delta).0))
    ensures Modify(t, id, delta).1 != SUCCESS ==> Modify(t, id, delta).0 == t
    ensures Modify(t, id, delta).1 == ERROR <==> Find(t, id).None?
    ensures Modify(t, id, delta).1 == SUCCESS <==>
      Find(t, id).Some? && var sum := Find(t, id).value.count + delta; 0 <= sum <= INT_MAX || sum < INT_MIN
    ensures Modify(t, id, delta).1 == SUCCESS ==>
      forall other: int :: Find(Modify(t, id, delta).0, other) ==
        if other == id then Some(Find(t, id).value.(count := Wrap32(Find(t, id).value.count + delta))) else Find(t, other)
    ensures NonNegative(Preorder(t)) && Modify(t, id, delta).1 == SUCCESS ==>
      0 <= Find(t, id).value.count + delta <= INT_MAX
  {
    hide Preorder, Ordered, Wrap32;
    if Find(t, id).Some? {
      var x := Find(t, id).value;
      SumExactly(x.count, delta);
      if NonNegative(Preorder(t)) { FoundNonNegative(t, id); }
      if Modify(t, id, delta).1 == SUCCESS {
        var c := Wrap32(x.count + delta);
        SetCountLocal(t, id, c);
        SetCountOrdered(t, id, c);
        forall other: int | other != id ensures Find(SetCount(t, id, c), other) == Find(t, other) {
          SetCountOther(t, id, c, other);
        }
      }
    }
  }

  /** One share added to a count of 2^31 - 1 is refused as if there were too few. */
  lemma FullStockRefuses(price: int32)
    ensures var t := Node(Leaf, Record(1, INT_MAX, price), Leaf); Execute(t, Sell(1, 1)) == (t, NOTENOUGHERR)
  {
    SumExactly(INT_MAX, 1);
  }

  /** The net effect of a run of commands on one id: the accepted deltas, in order. */
  function Net(t: Tree, cs: seq<Command>, id: int): int
    decreases |cs|
  {
    if cs == [] then 0
    else
      var (t', st) := Execute(t, cs[0]);
      (if st == SUCCESS && cs[0].id == id then Delta(cs[0]) else 0) + Net(t', cs[1..], id)
  }

  /** After insertions and any run of commands: still a search tree, counts non-negative, lookups exact. */
  lemma {:induction false} RunKeeps(t: Tree, cs: seq<Command>, id: int)
    requires Ordered(t) && NonNegative(Preorder(t))
    ensures Ordered(ExecuteAll(t, cs)) && NonNegative(Preorder(ExecuteAll(t, cs)))
    ensures Find(t, id).None? ==> Find(ExecuteAll(t, cs), id).None?
    ensures Find(t, id).Some? ==>
      var x, sum := Find(t, id).value, Find(t, id).value.count + Net(t, cs, id);
      0 <= sum <= INT_MAX && Find(ExecuteAll(t, cs), id) == Some(x.(count := sum))
    decreases |cs|
  {
    hide Preorder, Ordered, Wrap32, Modify;
    if cs == [] {
      if Find(t, id).Some? { FoundNonNegative(t, id); }
    } else {
      var c := cs[0];
      ModifyKeeps(t, c.id, Delta(c));
      RunKeeps(Execute(t, c).0, cs[1..], id);
    }
  }

  lemma ServerRun(rs: seq<Record>, cs: seq<Command>, id: int)
    requires NonNegative(rs)
    ensures var t := InsertAll(Leaf, rs);
      && Ordered(ExecuteAll(t, cs)) && NonNegative(Preorder(ExecuteAll(t, cs)))
      && match FirstWith(rs, id)
         case None => Find(ExecuteAll(t, cs), id) == None
         case Some(x) =>
           var sum := x.count + Net(t, cs, id);
           0 <= sum <= INT_MAX && Find(ExecuteAll(t, cs), id) == Some(x.(count := sum))
  {
    var t := InsertAll(Leaf, rs);
    InsertAllOrdered(Leaf, rs);
    InsertAllNonNegative(Leaf, rs);
    FindIsFirstInserted(rs, id);
    RunKeeps(t, cs, id);
  }

  lemma InsertNonNegative(t: Tree, r: Record)
    requires NonNegative(Preorder(t)) && r.count >= 0
    ensures NonNegative(Preorder(Insert(t, r)))
  {
    hide Insert, Preorder, Place;
    InsertAdds(t, r);
  }

  lemma {:induction false} InsertAllNonNegative(t: Tree, rs: seq<Record>)
    requires NonNegative(Preorder(t)) && NonNegative(rs)
    ensures NonNegative(Preorder(InsertAll(t, rs)))
    decreases |rs|
  {
    if rs != [] {
      InsertNonNegative(t, rs[0]);
      InsertAllNonNegative(Insert(t, rs[0]), rs[1..]);
    }
  }
}
