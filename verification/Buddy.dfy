/**
 The buddy allocator's allocation side as it runs: link arrays for the circular free lists, the
 order field of each page, loops that update them in place.
 */
module Buddy {
  import opened Machine
  import opened Powers
  import Model = BuddyModel
  import opened Rings

  const PAGE_SIZE: int := 256

  class Allocator {
    const maxOrder: nat
    const base: int              // address of the first physical page
    const next: array<int>
    const prev: array<int>
    const order: array<int>
    ghost var fl: Model.Lists
    ghost var given: iset<Model.Span>

    ghost predicate Shape()
      reads this
    {
      && maxOrder >= 2 && base > 0 && |fl| == maxOrder
      && next.Length == prev.Length == maxOrder + Pow2(maxOrder) && order.Length == Pow2(maxOrder)
      && next != prev && next != order && prev != order
    }

    ghost predicate Valid()
      reads this, next, prev, order
    {
      && Shape()
      && AllRings(next[..], prev[..], maxOrder, fl)
      && Model.Books(fl, given, Pow2(maxOrder))
      && forall s :: s in given ==> 0 <= s.start < order.Length && order[s.start] == s.order
    }

    /** `list_add`: links node `n` in right after head `k`. */
    method ListAdd(k: int, n: int)
      requires next != prev && next.Length == prev.Length && 0 <= k < next.Length && 0 <= n < next.Length
      requires 0 <= next[k] < next.Length
      modifies next, prev
      ensures Added(old(next[..]), old(prev[..]), next[..], prev[..], k, n)
    {
      var after := next[k];
      prev[after] := n;
      next[n] := after;
      prev[n] := k;
      next[k] := n;
    }

    /** `list_del`: unlinks node `n` and clears its own links. */
    method ListDel(n: int)
      requires next != prev && next.Length == prev.Length && 0 <= n < next.Length
      requires 0 <= next[n] < next.Length && 0 <= prev[n] < next.Length
      modifies next, prev
      ensures Removed(old(next[..]), old(prev[..]), next[..], prev[..], n)
    {
      next[prev[n]] := next[n];
      prev[next[n]] := prev[n];
      next[n] := NULL;
      prev[n] := NULL;
    }
  
    /** `init_buddy`, on arrays with arbitrary contents. */
    constructor (maxOrder: nat, base: int)
      requires maxOrder >= 2 && base > 0
      ensures Valid() && fresh(next) && fresh(prev) && fresh(order)
      ensures this.maxOrder == maxOrder && this.base == base
      ensures fl == Model.Init(maxOrder) && given == iset{}
    {
      this.maxOrder, this.base := maxOrder, base;
      next := new int[maxOrder + Pow2(maxOrder)];
      prev := new int[maxOrder + Pow2(maxOrder)];
      order := new int[Pow2(maxOrder)];
      fl := EmptyLists(maxOrder);
      given := iset{};
      new;
      for k := 0 to maxOrder
        invariant forall j :: 0 <= j < k ==> next[j] == j && prev[j] == j
        invariant fl == EmptyLists(maxOrder) && given == iset{}
      {
        next[k] := k;
        prev[k] := k;
      }
      InitRings(next[..], prev[..], maxOrder);
      Model.InitBooks(maxOrder);
      EmptyHasNone(maxOrder);
      AddPage(maxOrder - 1, 0);
      AddPage(maxOrder - 1, Pow2(maxOrder - 1));
      assert fl[maxOrder - 1] == [Pow2(maxOrder - 1), 0];
      assert fl == Model.Init(maxOrder);
    }

    /** `list_add` of a page that is on no list. */
    method AddPage(k: nat, p: int)
      requires Shape() && AllRings(next[..], prev[..], maxOrder, fl) && Separate(fl) && k < maxOrder
      requires 0 <= p < Pow2(maxOrder) && forall k :: 0 <= k < |fl| ==> p !in fl[k]
      modifies next, prev, `fl
      ensures AllRings(next[..], prev[..], maxOrder, fl) && Separate(fl)
      ensures fl == Model.Push(old(fl), k, p)
    {
      hide Pow2, Added;
      ghost var nx, pv := next[..], prev[..];
      HeadLink(nx, pv, maxOrder, fl, k);
      ListAdd(k, maxOrder + p);
      AddKeeps(nx, pv, next[..], prev[..], maxOrder, fl, k, p);
      PushSeparate(fl, k, p);
      fl := Model.Push(fl, k, p);
    }

    /** `expand`: halves the block in hand, putting the lower halves back on their lists. */
    method Expand(page0: int, high0: nat, low: nat, ghost hand: Model.Span) returns (page: int)
      requires Shape() && low <= high0 < maxOrder && hand == Model.Span(page0, high0) && hand in given
      requires AllRings(next[..], prev[..], maxOrder, fl) && Model.Books(fl, given, Pow2(maxOrder))
      modifies next, prev, `fl, `given
      ensures AllRings(next[..], prev[..], maxOrder, fl) && Model.Books(fl, given, Pow2(maxOrder))
      ensures Model.Grant(fl, page) == Model.Expand(old(fl), page0, high0, low)
      ensures given == old(given) - iset{hand} + iset{Model.Span(page, low)}
    {
      hide Model.Books, Separate, AllRings;
      page := page0;
      var high := high0;
      var size := Pow2(high0);
      ghost var held := hand;
      assert given == old(given) - iset{hand} + iset{hand};
      while high > low
        invariant low <= high <= high0 && size == Pow2(high) && held == Model.Span(page, high)
        invariant |fl| == maxOrder && held in given
        invariant AllRings(next[..], prev[..], maxOrder, fl) && Model.Books(fl, given, Pow2(maxOrder))
        invariant Model.Expand(fl, page, high, low) == Model.Expand(old(fl), page0, high0, low)
        invariant given == old(given) - iset{hand} + iset{held} && held !in old(given) - iset{hand}
      {
        InHand(fl, given, Pow2(maxOrder), held);
        Model.HalveInHand(fl, given, Pow2(maxOrder), held);
        Model.UpperNew(fl, given, Pow2(maxOrder), held);
        high := high - 1;
        size := size / 2;
        AddPage(high, page);
        given := given - iset{held} + iset{Model.Upper(held)};
        assert given == old(given) - iset{hand} + iset{Model.Upper(held)};
        page := page + size;
        held := Model.Upper(held);
      }
    }

    /** The body of `alloc_pages` for the first non-empty list. */
    method Grant(ord: nat, curr: nat, node: int) returns (addr: int)
      requires Valid() && ord <= curr < maxOrder && curr == Model.FirstNonEmpty(fl, ord) && node == maxOrder + fl[curr][0]
      modifies next, prev, order, `fl, `given
      ensures Valid()
      ensures var g := Model.AllocPages(old(fl), ord);
        && fl == g.fl && addr == base + PAGE_SIZE * g.page
        && given == old(given) + iset{Model.Span(g.page, ord)} && Model.Span(g.page, ord) !in old(given) && g.page >= 0
    {
      hide Pow2, Model.Books, Separate, AllRings, Removed, Model.Expand;
      ghost var s := Model.Span(fl[curr][0], curr);
      ghost var total := Pow2(maxOrder);
      Model.AllocKeeps(fl, given, total, ord);
      BooksSeparate(fl, given, total);
      UnlinkedFirst(next[..], prev[..], maxOrder, fl, curr);
      TakeOut(fl, given, total, curr);
      var page := node - maxOrder;
      ghost var nx, pv := next[..], prev[..];
      ListDel(node);
      DelKeeps(nx, pv, next[..], prev[..], maxOrder, fl, curr);
      fl, given := Model.Pop(fl, curr), given + iset{s};
      page := Expand(page, curr, ord, s);
      assert given == old(given) + iset{Model.Span(page, ord)};
      InHand(fl, given, total, Model.Span(page, ord));
      order[page] := ord;
      forall t | t in given ensures 0 <= t.start < order.Length && order[t.start] == t.order {
        if t != Model.Span(page, ord) { StartsDiffer(fl, given, total, t, Model.Span(page, ord)); }
      }
      return base + PAGE_SIZE * page;
    }

    /** The search loop of `alloc_pages`: the first order from `ord` on with a non-empty list, and its first node. */
    method FindList(ord: nat) returns (curr: nat, node: int)
      requires Valid() && ord < maxOrder
      ensures curr == Model.FirstNonEmpty(fl, ord) && (curr < maxOrder ==> node == maxOrder + fl[curr][0])
    {
      curr, node := ord, NULL;
      var more := true;
      while more
        invariant ord <= curr <= maxOrder && more == (curr < maxOrder)
        invariant Model.FirstNonEmpty(fl, ord) == Model.FirstNonEmpty(fl, curr)
        decreases maxOrder - curr
      {
        HeadLink(next[..], prev[..], maxOrder, fl, curr);
        node := next[curr];
        if node != curr { return; }
        curr := curr + 1;
        more := curr < maxOrder;
      }
    }

    /** `alloc_pages`: the address of a block of that order, or NULL (0). */
    method AllocPages(ord: int) returns (addr: int)
      requires Valid() && -1 <= ord < maxOrder
      modifies next, prev, order, `fl, `given
      ensures Valid()
      ensures ord == -1 ==> addr == 0 && fl == old(fl) && given == old(given)
      ensures ord >= 0 ==>
        var g := Model.AllocPages(old(fl), ord);
        && fl == g.fl
        && (addr == 0 <==> forall k :: ord <= k < maxOrder ==> old(fl)[k] == [])
        && (addr == 0 ==> given == old(given))
        && (addr != 0 ==>
              && addr == base + PAGE_SIZE * g.page
              && Model.Span(g.page, ord) !in old(given)
              && given == old(given) + iset{Model.Span(g.page, ord)})
    {
      if ord == -1 { return 0; }
      Model.AllocKeeps(fl, given, Pow2(maxOrder), ord);
      var curr, node := FindList(ord);
      if curr == maxOrder { return 0; }
      addr := Grant(ord, curr, node);
    }
  
    /** `mm_malloc`: a block of the smallest order that holds `size` bytes, or NULL. */
    method Malloc(size: nat) returns (addr: int)
      requires Valid() && OrderFor(size, maxOrder) != maxOrder
      modifies next, prev, order, `fl, `given
      ensures Valid()
      ensures addr == 0 <==>
        OrderFor(size, maxOrder) == -1
        || forall k :: OrderFor(size, maxOrder) <= k < maxOrder ==> old(fl)[k] == []
      ensures addr == 0 ==> fl == old(fl) && given == old(given)
      ensures addr != 0 ==>
        var s := Model.Span((addr - base) / PAGE_SIZE, OrderFor(size, maxOrder));
        && given == old(given) + iset{s} && s !in old(given)
        && addr == base + PAGE_SIZE * s.start
        && size <= PAGE_SIZE * Pow2(s.order)
        && OrderFor(size, maxOrder) >= 0 && Model.Grant(fl, s.start) == Model.AllocPages(old(fl), OrderFor(size, maxOrder))
    {
      hide Pow2, Model.Books, AllRings, Model.AllocPages;
      var ord := MemsizeToOrder(size, maxOrder);
      if ord != -1 { Model.AllocKeeps(fl, given, Pow2(maxOrder), ord); }
      addr := AllocPages(ord);
    }

    /** Any sequence of allocations. */
    method RunOrders(orders: seq<nat>)
      requires Valid() && Model.AllBelow(orders, maxOrder)
      modifies next, prev, order, `fl, `given
      ensures Valid()
      ensures Model.Book(fl, given) == Model.ServeAll(Model.Book(old(fl), old(given)), orders)
    {
      hide Pow2, Model.Books, AllRings, Model.AllocPages;
      ghost var b := Model.Book(fl, given);
      for i := 0 to |orders|
        invariant Valid()
        invariant Model.ServeAll(Model.Book(fl, given), orders[i..]) == Model.ServeAll(b, orders)
      {
        assert orders[i..][0] == orders[i] && orders[i..][1..] == orders[i + 1..];
        Model.AllocKeeps(fl, given, Pow2(maxOrder), orders[i]);
        var _ := AllocPages(orders[i]);
      }
      assert orders[|orders|..] == [];
    }
  }

  /** `memsize_to_order`: the least order whose blocks hold `size` bytes, at most `maxOrder`; else -1. */
  function OrderFrom(size: nat, i: nat, maxOrder: nat): (r: int)
    requires i <= maxOrder + 1
    ensures r == -1 || i <= r <= maxOrder
    ensures r != -1 ==> size <= PAGE_SIZE * Pow2(r) && forall j :: i <= j < r ==> PAGE_SIZE * Pow2(j) < size
    ensures r == -1 ==> forall j :: i <= j <= maxOrder ==> PAGE_SIZE * Pow2(j) < size
    decreases maxOrder + 1 - i
  {
    if i == maxOrder + 1 then -1
    else if size <= PAGE_SIZE * Pow2(i) then i
    else OrderFrom(size, i + 1, maxOrder)
  }

  function OrderFor(size: nat, maxOrder: nat): int { OrderFrom(size, 0, maxOrder) }

  method MemsizeToOrder(size: nat, maxOrder: nat) returns (r: int)
    ensures r == OrderFor(size, maxOrder)
  {
    var i := 0;
    while i <= maxOrder
      invariant i <= maxOrder + 1 && OrderFrom(size, i, maxOrder) == OrderFor(size, maxOrder)
    {
      if size <= PAGE_SIZE * Pow2(i) { return i; }
      i := i + 1;
    }
    return -1;
  }

  /**
   The order lies past the last free list exactly for sizes above half and up to all of the memory:
   `memsize_to_order` goes up to `maxOrder`, the lists only to `maxOrder - 1`.
   */
  lemma PastTheListsExactly(size: nat, maxOrder: nat)
    requires maxOrder > 0
    ensures OrderFor(size, maxOrder) == maxOrder <==>
      PAGE_SIZE * Pow2(maxOrder - 1) < size <= PAGE_SIZE * Pow2(maxOrder)
  {
    var r := OrderFor(size, maxOrder);
    if PAGE_SIZE * Pow2(maxOrder - 1) < size {
      forall j | 0 <= j < maxOrder ensures PAGE_SIZE * Pow2(j) < size {
        if j < maxOrder - 1 { Pow2Grows(j, maxOrder - 1); }
      }
    }
  }

  /** With the 65536 pages of the original, a request of 16 MiB leaves the array of lists. */
  lemma WholeMemoryRequest()
    ensures OrderFor(0x100_0000, 16) == 16
  {
    assert Pow2(8) == 256;
    assert Pow2(15) == 32768;
    PastTheListsExactly(0x100_0000, 16);
  }
}
