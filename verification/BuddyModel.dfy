/**
 The allocation side of the buddy allocator on free lists of page numbers: `alloc_pages` takes the
 first block of the smallest order that has one, and `expand` halves it, putting the lower halves
 back, until it has the order asked for.
 */
module BuddyModel {
  import opened Powers

  datatype Span = Span(start: int, order: nat) {
    function End(): int { start + Pow2(order) }
  }

  /** One list of block starts (page numbers) per order. */
  type Lists = seq<seq<int>>

  function FirstNonEmpty(fl: Lists, k: nat): (r: nat)
    requires k <= |fl|
    ensures k <= r <= |fl|
    ensures r < |fl| ==> fl[r] != []
    ensures forall j :: k <= j < r ==> fl[j] == []
    decreases |fl| - k
  {
    if k == |fl| || fl[k] != [] then k else FirstNonEmpty(fl, k + 1)
  }

  function Push(fl: Lists, k: nat, p: int): Lists
    requires k < |fl|
  {
    fl[k := [p] + fl[k]]
  }

  function Pop(fl: Lists, k: nat): Lists
    requires k < |fl| && fl[k] != []
  {
    fl[k := fl[k][1..]]
  }

  datatype Grant = Grant(fl: Lists, page: int)

  function Expand(fl: Lists, p: int, high: nat, low: nat): (g: Grant)
    requires low <= high <= |fl|
    ensures |g.fl| == |fl|
    decreases high
  {
    if high == low then Grant(fl, p)
    else Expand(Push(fl, high - 1, p), p + Pow2(high - 1), high - 1, low)
  }

  const NONE: int := -1

  function AllocPages(fl: Lists, order: nat): (g: Grant)
    requires order < |fl|
    ensures |g.fl| == |fl|
  {
    var k := FirstNonEmpty(fl, order);
    if k == |fl| then Grant(fl, NONE)
    else Expand(Pop(fl, k), fl[k][0], k, order)
  }

  /** All lists empty but the last, which holds the two halves of the memory. */
  function Init(maxOrder: nat): Lists
    requires maxOrder >= 2
  {
    seq(maxOrder, k => if k == maxOrder - 1 then [Pow2(maxOrder - 1), 0] else [])
  }

  // ---------------------------------------------------------------- partitions of the pages

  ghost predicate Apart(s: Span, t: Span) { s.End() <= t.start || t.End() <= s.start }

  ghost predicate Fits(s: Span, total: int) {
    0 <= s.start && s.End() <= total && s.start % Pow2(s.order) == 0
  }

  ghost predicate Has(s: Span, x: int) { s.start <= x < s.End() }

  ghost predicate Covered(spans: iset<Span>, x: int) { exists s :: s in spans && Has(s, x) }

  /** The spans are aligned blocks that cover `[0, total)`, every page exactly once. */
  ghost predicate Partition(spans: iset<Span>, total: int) {
    && (forall s :: s in spans ==> Fits(s, total))
    && (forall s, t :: s in spans && t in spans && s != t ==> Apart(s, t))
    && (forall x :: 0 <= x < total ==> Covered(spans, x))
  }

  function Lower(s: Span): Span requires s.order > 0 { Span(s.start, s.order - 1) }

  function Upper(s: Span): Span requires s.order > 0 { Span(s.start + Pow2(s.order - 1), s.order - 1) }

  lemma HalvesFit(s: Span, total: int)
    requires s.order > 0 && Fits(s, total)
    ensures Fits(Lower(s), total) && Fits(Upper(s), total) && Apart(Lower(s), Upper(s))
    ensures forall x :: Has(s, x) <==> Has(Lower(s), x) || Has(Upper(s), x)
  {
    HalfSteps(Pow2(s.order - 1), s.start);
  }

  lemma HalvesApart(s: Span, t: Span)
    requires s.order > 0 && Apart(s, t)
    ensures Apart(Lower(s), t) && Apart(Upper(s), t)
  {}

  /** Replacing a block by its two halves keeps a partition. */
  lemma Halve(spans: iset<Span>, s: Span, total: int)
    requires Partition(spans, total) && s in spans && s.order > 0
    ensures Partition(spans - iset{s} + iset{Lower(s), Upper(s)}, total)
    ensures Lower(s) !in spans && Upper(s) !in spans
  {
    hide Has, Fits, Lower, Upper, Apart;
    var spans' := spans - iset{s} + iset{Lower(s), Upper(s)};
    HalvesFit(s, total);
    forall t | t in spans && t != s ensures Apart(Lower(s), t) && Apart(Upper(s), t) && t != Lower(s) && t != Upper(s) {
      HalvesApart(s, t);
      NotApartSelf(t);
    }
    assert Lower(s) != s && Upper(s) != s by { SmallerOrder(s); }
    forall x | 0 <= x < total ensures Covered(spans', x) {
      assert Covered(spans, x);
      var t :| t in spans && Has(t, x);
      if t == s {
        assert Has(Lower(s), x) || Has(Upper(s), x);
        assert Lower(s) in spans' && Upper(s) in spans';
      } else {
        assert t in spans';
      }
    }
    forall a, b | a in spans' && b in spans' && a != b ensures Apart(a, b) { ApartSwap(a, b); }
  }

  lemma SmallerOrder(s: Span)
    requires s.order > 0
    ensures Lower(s) != s && Upper(s) != s
  {}

  lemma NotApartSelf(t: Span)
    ensures !Apart(t, t)
  {}

  lemma ApartSwap(a: Span, b: Span)
    ensures Apart(a, b) <==> Apart(b, a)
  {}

  ghost function Free(fl: Lists): iset<Span> {
    iset s: Span | s.order < |fl| && s.start in fl[s.order]
  }

  predicate NoDup(s: seq<int>) {
    forall i, j :: 0 <= i < j < |s| ==> s[i] != s[j]
  }

  ghost predicate NoDups(fl: Lists) {
    forall k :: 0 <= k < |fl| ==> NoDup(fl[k])
  }

  lemma PushFree(fl: Lists, k: nat, p: int)
    requires k < |fl| && Span(p, k) !in Free(fl) && NoDups(fl)
    ensures Free(Push(fl, k, p)) == Free(fl) + iset{Span(p, k)} && NoDups(Push(fl, k, p))
  {
    var fl' := Push(fl, k, p);
    assert NoDup(fl[k]);
    forall s ensures s in Free(fl') <==> s in Free(fl) || s == Span(p, k) {
      if s.order == k { assert s.start in fl'[k] <==> s.start == p || s.start in fl[k]; }
    }
  }

  lemma PopFree(fl: Lists, k: nat)
    requires k < |fl| && fl[k] != [] && NoDups(fl)
    ensures Free(Pop(fl, k)) == Free(fl) - iset{Span(fl[k][0], k)} && NoDups(Pop(fl, k))
    ensures Span(fl[k][0], k) in Free(fl)
  {
    var fl' := Pop(fl, k);
    assert NoDup(fl[k]);
    forall s ensures s in Free(fl') <==> s in Free(fl) && s != Span(fl[k][0], k) {
      if s.order == k { assert s.start in fl[k] <==> s.start == fl[k][0] || s.start in fl[k][1..]; }
    }
  }

  // ---------------------------------------------------------------- the bookkeeping invariant

  /** Free blocks and blocks handed out together are all the pages, and no block is both. */
  ghost predicate Books(fl: Lists, given: iset<Span>, total: int) {
    && NoDups(fl)
    && Free(fl) !! given
    && Partition(Free(fl) + given, total)
  }

  /** Splitting the block in hand: the lower half goes back, the upper half stays in hand. */
  lemma {:induction false} ExpandKeeps(fl: Lists, given: iset<Span>, total: int, p: int, high: nat, low: nat)
    requires low <= high <= |fl| && Books(fl, given, total) && Span(p, high) in given
    ensures var g := Expand(fl, p, high, low);
      Books(g.fl, given - iset{Span(p, high)} + iset{Span(g.page, low)}, total)
    decreases high
  {
    hide Books, Upper, Push, Expand, Pow2;
    var s := Span(p, high);
    if high == low {
      ExpandNone(fl, p, high);
      assert given - iset{s} + iset{s} == given;
    } else {
      HalveInHand(fl, given, total, s);
      UpperNew(fl, given, total, s);
      ExpandOnce(fl, p, high, low);
      ExpandKeeps(Push(fl, high - 1, p), given - iset{s} + iset{Upper(s)}, total, Upper(s).start, high - 1, low);
      Swap(given, s, Upper(s));
    }
  }

  lemma ExpandNone(fl: Lists, p: int, high: nat)
    requires high <= |fl|
    ensures Expand(fl, p, high, high) == Grant(fl, p)
  {}

  lemma ExpandOnce(fl: Lists, p: int, high: nat, low: nat)
    requires low < high <= |fl|
    ensures Upper(Span(p, high)) == Span(p + Pow2(high - 1), high - 1)
    ensures |Push(fl, high - 1, p)| == |fl|
    ensures Expand(fl, p, high, low) == Expand(Push(fl, high - 1, p), Upper(Span(p, high)).start, high - 1, low)
  {}

  lemma Swap(given: iset<Span>, s: Span, u: Span)
    requires u !in given
    ensures given - iset{s} + iset{u} - iset{u} == given - iset{s}
  {}

  lemma UpperNew(fl: Lists, given: iset<Span>, total: int, s: Span)
    requires Books(fl, given, total) && s in given && s.order > 0
    ensures Upper(s) !in given && Lower(s) !in given && Upper(s) !in Free(fl) && Lower(s) !in Free(fl)
  {
    hide Partition, NoDups;
    Halve(Free(fl) + given, s, total);
  }

  lemma HalveInHand(fl: Lists, given: iset<Span>, total: int, s: Span)
    requires Books(fl, given, total) && s in given && 0 < s.order <= |fl|
    ensures Books(Push(fl, s.order - 1, s.start), given - iset{s} + iset{Upper(s)}, total)
  {
    hide Partition, NoDups, Free, Push;
    var all := Free(fl) + given;
    Halve(all, s, total);
    UpperNew(fl, given, total, s);
    PushFree(fl, s.order - 1, s.start);
    var given' := given - iset{s} + iset{Upper(s)};
    var fl' := Push(fl, s.order - 1, s.start);
    assert Lower(s) != Upper(s);
    assert Free(fl') + given' == all - iset{s} + iset{Lower(s), Upper(s)};
    assert Free(fl') !! given';
  }

  /** `alloc_pages` hands out one new aligned block and keeps the books. */
  lemma AllocKeeps(fl: Lists, given: iset<Span>, total: int, order: nat)
    requires order < |fl| && Books(fl, given, total)
    ensures var g := AllocPages(fl, order);
      && (g.page == NONE <==> forall k :: order <= k < |fl| ==> fl[k] == [])
      && (g.page == NONE ==> g.fl == fl)
      && (g.page != NONE ==>
            && Span(g.page, order) !in given && Fits(Span(g.page, order), total)
            && Books(g.fl, given + iset{Span(g.page, order)}, total))
  {
    var k := FirstNonEmpty(fl, order);
    if k < |fl| {
      var s := Span(fl[k][0], k);
      PopFree(fl, k);
      var given' := given + iset{s};
      assert Free(Pop(fl, k)) + given' == Free(fl) + given;
      ExpandKeeps(Pop(fl, k), given', total, s.start, k, order);
      assert given' - iset{s} == given;
      ExpandWithin(Pop(fl, k), s.start, k, order);
      GrantNew(fl, given, total, s, Span(AllocPages(fl, order).page, order));
    }
  }

  /** The block `expand` returns lies inside the one it was given. */
  lemma {:induction false} ExpandWithin(fl: Lists, p: int, high: nat, low: nat)
    requires low <= high <= |fl|
    ensures var g := Expand(fl, p, high, low);
      p <= g.page && g.page + Pow2(low) <= p + Pow2(high)
    decreases high
  {
    if high != low {
      ExpandWithin(Push(fl, high - 1, p), p + Pow2(high - 1), high - 1, low);
    }
  }

  /** What `expand` returns and leaves: the top of the block, and its lower parts in front of the lists between. */
  lemma {:induction false} ExpandExactly(fl: Lists, p: int, high: nat, low: nat, k: nat)
    requires low <= high <= |fl| && k < |fl|
    ensures var g := Expand(fl, p, high, low);
      && g.page == p + Pow2(high) - Pow2(low)
      && g.fl[k] == if low <= k < high then [p + Pow2(high) - Pow2(k + 1)] + fl[k] else fl[k]
    decreases high
  {
    if high != low { ExpandExactly(Push(fl, high - 1, p), p + Pow2(high - 1), high - 1, low, k); }
  }

  /** `alloc_pages` hands out the top of the newest block of the smallest order that has one. */
  lemma AllocExactly(fl: Lists, order: nat, from: nat, k: nat)
    requires order <= from < |fl| && fl[from] != [] && (forall j :: order <= j < from ==> fl[j] == []) && k < |fl|
    ensures var g, p := AllocPages(fl, order), fl[from][0];
      && g.page == p + Pow2(from) - Pow2(order)
      && g.fl[k] == if order <= k < from then [p + Pow2(from) - Pow2(k + 1)]
                    else if k == from then fl[from][1..] else fl[k]
  {
    hide Expand;
    assert FirstNonEmpty(fl, order) == from;
    ExpandExactly(Pop(fl, from), fl[from][0], from, order, k);
  }

  lemma GrantNew(fl: Lists, given: iset<Span>, total: int, s: Span, t: Span)
    requires Books(fl, given, total) && s in Free(fl) && s.start <= t.start && t.End() <= s.End()
    ensures t !in given && 0 <= t.start
  {
    hide NoDups;
    assert Fits(s, total);
    assert t in given ==> Apart(s, t);
  }

  // ---------------------------------------------------------------- runs

  lemma InitBooks(maxOrder: nat)
    requires maxOrder >= 2
    ensures Books(Init(maxOrder), iset{}, Pow2(maxOrder))
  {
    var fl, half := Init(maxOrder), Pow2(maxOrder - 1);
    var a, b := Span(0, maxOrder - 1), Span(half, maxOrder - 1);
    InitFree(maxOrder);
    TwoHalves(maxOrder, a, b);
    assert Free(fl) + iset{} == iset{a, b};
  }

  lemma InitFree(maxOrder: nat)
    requires maxOrder >= 2
    ensures Free(Init(maxOrder)) == iset{Span(0, maxOrder - 1), Span(Pow2(maxOrder - 1), maxOrder - 1)}
    ensures NoDups(Init(maxOrder))
  {
    hide Pow2;
    var fl, half := Init(maxOrder), Pow2(maxOrder - 1);
    forall s ensures s in Free(fl) <==> s == Span(0, maxOrder - 1) || s == Span(half, maxOrder - 1) {
      if s.order == maxOrder - 1 { assert fl[s.order] == [half, 0]; }
    }
  }

  lemma TwoHalves(maxOrder: nat, a: Span, b: Span)
    requires maxOrder >= 2 && a == Span(0, maxOrder - 1) && b == Span(Pow2(maxOrder - 1), maxOrder - 1)
    ensures Partition(iset{a, b}, Pow2(maxOrder))
  {
    var half, spans := Pow2(maxOrder - 1), iset{a, b};
    MultipleMod(half, 0);
    MultipleMod(half, 1);
    assert Fits(a, Pow2(maxOrder)) && Fits(b, Pow2(maxOrder));
    forall x | 0 <= x < Pow2(maxOrder) ensures Covered(spans, x) {
      assert Has(a, x) || Has(b, x);
    }
  }

  predicate AllBelow(orders: seq<nat>, n: nat) {
    forall i :: 0 <= i < |orders| ==> orders[i] < n
  }

  datatype Book = Book(fl: Lists, given: iset<Span>)

  ghost function Serve(b: Book, order: nat): Book
    requires order < |b.fl|
  {
    var g := AllocPages(b.fl, order);
    Book(g.fl, if g.page == NONE then b.given else b.given + iset{Span(g.page, order)})
  }

  ghost function ServeAll(b: Book, orders: seq<nat>): Book
    requires AllBelow(orders, |b.fl|)
    decreases |orders|
  {
    if orders == [] then b else ServeAll(Serve(b, orders[0]), orders[1..])
  }

  lemma {:induction false} ServeAllKeeps(b: Book, orders: seq<nat>, total: int)
    requires AllBelow(orders, |b.fl|) && Books(b.fl, b.given, total)
    ensures Books(ServeAll(b, orders).fl, ServeAll(b, orders).given, total) && b.given <= ServeAll(b, orders).given
    decreases |orders|
  {
    if orders != [] {
      AllocKeeps(b.fl, b.given, total, orders[0]);
      ServeAllKeeps(Serve(b, orders[0]), orders[1..], total);
    }
  }

  /** After any sequence of allocations free and handed-out blocks tile the memory, all aligned. */
  lemma RunPartitions(maxOrder: nat, orders: seq<nat>)
    requires maxOrder >= 2 && AllBelow(orders, maxOrder)
    ensures var b := ServeAll(Book(Init(maxOrder), iset{}), orders);
      Free(b.fl) !! b.given && Partition(Free(b.fl) + b.given, Pow2(maxOrder))
  {
    InitBooks(maxOrder);
    ServeAllKeeps(Book(Init(maxOrder), iset{}), orders, Pow2(maxOrder));
  }
}
