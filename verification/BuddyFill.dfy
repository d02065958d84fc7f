/**
 How the buddy allocator fills the memory: blocks asked for in orders that do not increase are handed
 out from the top of the memory downwards without a gap, until no page is left.
 */
module BuddyFill {
  import opened Powers
  import opened BuddyModel

  // ---------------------------------------------------------------- remainders

  lemma ModIs(n: int, d: int, q: int, r: int)
    requires 0 <= r < d && n == q * d + r
    ensures n % d == r
  {
    var q', r' := n / d, n % d;
    assert n == d * q' + r' && d * (q - q') == d * q - d * q' && d * (q' - q) == d * q' - d * q;
    NoMultipleInside(d, q - q');
    NoMultipleInside(d, q' - q);
  }

  lemma ModMinus(n: int, x: int, d: int)
    requires d > 0 && 0 <= x <= n % d
    ensures (n - x) % d == n % d - x
  {
    ModIs(n - x, d, n / d, n % d - x);
  }

  lemma ModBorrow(n: int, x: int, d: int)
    requires d > 0 && n % d == 0 && 0 < x <= d
    ensures (n - x) % d == d - x
  {
    assert n == (n / d) * d;
    assert n - x == (n / d - 1) * d + (d - x);
    ModIs(n - x, d, n / d - 1, d - x);
  }

  /** A remainder by a multiple of `e` keeps the remainder by `e`. */
  lemma ModOfMod(n: int, d: int, e: int, c: int)
    requires e > 0 && c > 0 && d == c * e
    ensures d > 0 && (n % d) % e == n % e
  {
    var q, r := n / d, n % d;
    assert n == q * d + r;
    var q', r' := r / e, r % e;
    assert r == q' * e + r';
    assert q * d == (q * c) * e;
    assert n == (q * c + q') * e + r';
    ModIs(n, e, q * c + q', r');
  }

  lemma {:induction false} Pow2Multiple(j: nat, k: nat) returns (c: int)
    requires j <= k
    ensures c > 0 && Pow2(k) == c * Pow2(j)
  {
    if j == k {
      c := 1;
    } else {
      c := Pow2Multiple(j, k - 1);
      c := 2 * c;
    }
  }

  /** A multiple of 2^k is one of every smaller power. */
  lemma StillMultiple(n: int, j: nat, k: nat)
    requires j <= k && n % Pow2(k) == 0
    ensures n % Pow2(j) == 0
  {
    var c := Pow2Multiple(j, k);
    ModOfMod(n, Pow2(k), Pow2(j), c);
  }

  // ---------------------------------------------------------------- the lists while the memory fills up

  /** The free list of order `k` when pages `[0, left)` are free: the block of that order at their end, if they have an odd one. */
  function FreeBlock(left: int, k: nat): seq<int> {
    if left % Pow2(k + 1) >= Pow2(k) then [left - left % Pow2(k + 1)] else []
  }

  /** All lists then; the last one holds both halves of an untouched memory. */
  function FreeLists(maxOrder: nat, left: int): (fl: Lists)
    requires maxOrder >= 2
    ensures |fl| == maxOrder
  {
    seq(maxOrder, k requires 0 <= k < maxOrder =>
      if k < maxOrder - 1 then FreeBlock(left, k)
      else if left == Pow2(maxOrder) then [Pow2(k), 0]
      else if left >= Pow2(k) then [0] else [])
  }

  lemma FreshLists(maxOrder: nat)
    requires maxOrder >= 2
    ensures FreeLists(maxOrder, Pow2(maxOrder)) == Init(maxOrder)
  {
    hide Pow2;
    var total := Pow2(maxOrder);
    MultipleMod(total, 1);
    forall k: nat | k < maxOrder - 1 ensures FreeBlock(total, k) == [] {
      StillMultiple(total, k + 1, maxOrder);
    }
    assert FreeLists(maxOrder, total) == Init(maxOrder);
  }

  /** The smallest order with a block, from an order that divides what is left. */
  lemma {:induction false} Smallest(maxOrder: nat, left: int, order: nat) returns (from: nat)
    requires maxOrder >= 2 && order < maxOrder && 0 < left <= Pow2(maxOrder) && left % Pow2(order) == 0
    ensures order <= from < maxOrder && left % Pow2(from) == 0
    ensures forall j :: order <= j < from ==> FreeLists(maxOrder, left)[j] == []
    ensures FreeLists(maxOrder, left)[from] != [] && FreeLists(maxOrder, left)[from][0] == left - Pow2(from)
    ensures from < maxOrder - 1 ==> left % Pow2(from + 1) == Pow2(from)
    decreases maxOrder - order
  {
    var fl := FreeLists(maxOrder, left);
    if order == maxOrder - 1 {
      from := order;
      WholeHalves(left, Pow2(order));
    } else {
      var c := Pow2Multiple(order, order + 1);
      TwoRemainders(left, Pow2(order));
      if left % Pow2(order + 1) == 0 {
        from := Smallest(maxOrder, left, order + 1);
      } else {
        from := order;
      }
    }
  }

  lemma WholeHalves(left: int, half: nat)
    requires half > 0 && 0 < left <= 2 * half && left % half == 0
    ensures left == half || left == 2 * half
  {
    if left < half { ModIs(left, half, 0, left); }
    if half < left < 2 * half { ModIs(left, half, 1, left - half); }
  }

  lemma TwoRemainders(n: int, d: nat)
    requires d > 0 && n % d == 0
    ensures n % (2 * d) == 0 || n % (2 * d) == d
  {
    var r := n % (2 * d);
    ModOfMod(n, 2 * d, d, 2);
    if 0 < r < d { ModIs(r, d, 0, r); }
    if d < r < 2 * d { ModIs(r, d, 1, r - d); }
  }

  /** A list above the block taken is the same afterwards. */
  lemma Above(left: int, from: nat, x: int, k: nat)
    requires from < k && left % Pow2(from + 1) == Pow2(from) && 0 < x <= Pow2(from)
    ensures FreeBlock(left - x, k) == FreeBlock(left, k)
  {
    var e, h, d := Pow2(from + 1), Pow2(k), Pow2(k + 1);
    var c := Pow2Multiple(from + 1, k + 1);
    ModOfMod(left, d, e, c);
    var s := left % d;
    AtLeastRemainder(s, e);
    ModMinus(left, x, d);
    if s >= h {
      var b := Pow2Multiple(from + 1, k);
      MinusMultiple(s, b, e);
      AtLeastRemainder(s - h, e);
    }
  }

  lemma AtLeastRemainder(n: int, e: int)
    requires 0 <= n && e > 0
    ensures n >= n % e
  {
    assert n == (n / e) * e + n % e;
    if n / e > 0 { assert (n / e) * e > 0; }
  }

  lemma MinusMultiple(n: int, b: int, e: int)
    requires e > 0
    ensures (n - b * e) % e == n % e
  {
    assert n - b * e == (n / e - b) * e + n % e;
    ModIs(n - b * e, e, n / e - b, n % e);
  }

  /** A list below it gets the lower part of the block that was cut. */
  lemma Below(left: int, order: nat, from: nat, k: nat)
    requires order <= k < from && left % Pow2(from) == 0
    ensures FreeBlock(left - Pow2(order), k) == [left - Pow2(k + 1)]
  {
    StillMultiple(left, k + 1, from);
    if order < k { Pow2Grows(order, k); }
    ModBorrow(left, Pow2(order), Pow2(k + 1));
  }

  /** A list too small for the order stays empty. */
  lemma TooSmall(left: int, order: nat, k: nat)
    requires k < order && left % Pow2(order) == 0
    ensures FreeBlock(left, k) == [] && FreeBlock(left - Pow2(order), k) == []
  {
    StillMultiple(left, k + 1, order);
    LessOne(left, Pow2(order));
    StillMultiple(left - Pow2(order), k + 1, order);
  }

  lemma LessOne(n: int, d: int)
    requires d > 0 && n % d == 0
    ensures (n - d) % d == 0
  {
    MinusMultiple(n, 1, d);
  }

  /** One allocation takes the topmost free pages. */
  lemma TakesTop(maxOrder: nat, left: int, order: nat)
    requires maxOrder >= 2 && order < maxOrder && 0 < left <= Pow2(maxOrder) && left % Pow2(order) == 0
    ensures AllocPages(FreeLists(maxOrder, left), order)
      == Grant(FreeLists(maxOrder, left - Pow2(order)), left - Pow2(order))
  {
    hide AllocPages, FreeBlock;
    var fl, fl' := FreeLists(maxOrder, left), FreeLists(maxOrder, left - Pow2(order));
    var from := Smallest(maxOrder, left, order);
    var g := AllocPages(fl, order);
    AllocExactly(fl, order, from, order);
    forall k: nat | k < maxOrder ensures g.fl[k] == fl'[k] {
      AllocExactly(fl, order, from, k);
      OneList(maxOrder, left, order, from, k);
    }
    assert g.fl == fl';
  }

  lemma OneList(maxOrder: nat, left: int, order: nat, from: nat, k: nat)
    requires maxOrder >= 2 && order <= from < maxOrder && 0 < left <= Pow2(maxOrder) && k < maxOrder
    requires left % Pow2(order) == 0 && left % Pow2(from) == 0
    requires var fl := FreeLists(maxOrder, left); fl[from] != [] && fl[from][0] == left - Pow2(from)
    requires from < maxOrder - 1 ==> left % Pow2(from + 1) == Pow2(from)
    ensures var fl, fl' := FreeLists(maxOrder, left), FreeLists(maxOrder, left - Pow2(order));
      fl'[k] == if order <= k < from then [left - Pow2(k + 1)] else if k == from then fl[from][1..] else fl[k]
  {
    if order < from { Pow2Grows(order, from); }
    if k == maxOrder - 1 {
      if from < k { LastList(maxOrder, left, order, from); } else { WholeHalves(left, Pow2(k)); }
    } else if k < order {
      TooSmall(left, order, k);
    } else if k < from {
      Below(left, order, from, k);
    } else if k == from {
      ModMinus(left, Pow2(order), Pow2(k + 1));
    } else {
      Above(left, from, Pow2(order), k);
    }
  }

  /** Taking from a smaller block leaves the halves alone. */
  lemma LastList(maxOrder: nat, left: int, order: nat, from: nat)
    requires maxOrder >= 2 && order <= from < maxOrder - 1 && 0 < left <= Pow2(maxOrder)
    requires left % Pow2(from + 1) == Pow2(from) && Pow2(order) <= Pow2(from)
    ensures left != Pow2(maxOrder) && left - Pow2(order) != Pow2(maxOrder)
    ensures left - Pow2(order) >= Pow2(maxOrder - 1) <==> left >= Pow2(maxOrder - 1)
  {
    hide Pow2;
    var half, e, x := Pow2(maxOrder - 1), Pow2(from + 1), Pow2(order);
    var c := Pow2Multiple(from + 1, maxOrder);
    MultipleMod(e, c);
    assert Pow2(maxOrder) == e * c;
    if left >= half {
      var b := Pow2Multiple(from + 1, maxOrder - 1);
      AtLeastBoth(left, half, b, e);
    }
  }

  lemma AtLeastBoth(n: int, h: int, b: int, e: int)
    requires e > 0 && h == b * e && n >= h
    ensures n - h >= n % e
  {
    MinusMultiple(n, b, e);
    AtLeastRemainder(n - h, e);
  }

  // ---------------------------------------------------------------- whole runs

  ghost predicate NonIncreasing(orders: seq<nat>) {
    forall i, j :: 0 <= i && j == i + 1 && j < |orders| ==> orders[j] <= orders[i]
  }

  function Pages(orders: seq<nat>): nat { if orders == [] then 0 else Pow2(orders[0]) + Pages(orders[1..]) }

  /** The blocks stacked downwards from `top`. */
  ghost function Stack(top: int, orders: seq<nat>): iset<Span>
    decreases |orders|
  {
    if orders == [] then iset{} else iset{Span(top - Pow2(orders[0]), orders[0])} + Stack(top - Pow2(orders[0]), orders[1..])
  }

  /** The stack is the pages from its foot up to `top`. */
  lemma {:induction false} StackCovers(top: int, orders: seq<nat>, x: int)
    ensures Covered(Stack(top, orders), x) <==> top - Pages(orders) <= x < top
    decreases |orders|
  {
    hide Pow2;
    if orders != [] {
      var s, rest := Span(top - Pow2(orders[0]), orders[0]), Stack(top - Pow2(orders[0]), orders[1..]);
      StackCovers(s.start, orders[1..], x);
      CoveredBy(s, rest, x);
    }
  }

  lemma CoveredBy(s: Span, rest: iset<Span>, x: int)
    ensures Covered(iset{s} + rest, x) <==> Has(s, x) || Covered(rest, x)
  {
    hide Has;
    if Has(s, x) { assert s in iset{s} + rest; }
    if Covered(rest, x) {
      var t :| t in rest && Has(t, x);
      assert t in iset{s} + rest;
    }
  }

  lemma {:induction false} FillsFrom(maxOrder: nat, b: Book, left: int, orders: seq<nat>)
    requires maxOrder >= 2 && AllBelow(orders, maxOrder) && NonIncreasing(orders)
    requires b.fl == FreeLists(maxOrder, left) && Pages(orders) <= left <= Pow2(maxOrder)
    requires orders != [] ==> left % Pow2(orders[0]) == 0
    ensures ServeAll(b, orders) == Book(FreeLists(maxOrder, left - Pages(orders)), b.given + Stack(left, orders))
    decreases |orders|
  {
    hide FreeLists, AllocPages;
    if orders == [] {
      assert b.given + Stack(left, orders) == b.given;
    } else {
      var o, rest := orders[0], orders[1..];
      TakesTop(maxOrder, left, o);
      var b' := Serve(b, o);
      LessOne(left, Pow2(o));
      if rest != [] { StillMultiple(left - Pow2(o), rest[0], o); }
      FillsFrom(maxOrder, b', left - Pow2(o), rest);
      assert b'.given + Stack(left - Pow2(o), rest) == b.given + Stack(left, orders);
    }
  }

  /**
   Requests in orders that do not increase, for as many pages as there are, all succeed: the blocks handed
   out lie one below the other from the top of the memory, and exactly the pages below them stay free.
   */
  lemma RunFillsFromTop(maxOrder: nat, orders: seq<nat>)
    requires maxOrder >= 2 && AllBelow(orders, maxOrder) && NonIncreasing(orders) && Pages(orders) <= Pow2(maxOrder)
    ensures ServeAll(Book(Init(maxOrder), iset{}), orders)
      == Book(FreeLists(maxOrder, Pow2(maxOrder) - Pages(orders)), Stack(Pow2(maxOrder), orders))
    ensures forall x ::
      Covered(ServeAll(Book(Init(maxOrder), iset{}), orders).given, x) <==> Pow2(maxOrder) - Pages(orders) <= x < Pow2(maxOrder)
  {
    hide Pow2, FreeLists, Covered;
    FreshLists(maxOrder);
    if orders != [] {
      MultipleMod(Pow2(maxOrder), 1);
      StillMultiple(Pow2(maxOrder), orders[0], maxOrder);
    }
    FillsFrom(maxOrder, Book(Init(maxOrder), iset{}), Pow2(maxOrder), orders);
    assert iset{} + Stack(Pow2(maxOrder), orders) == Stack(Pow2(maxOrder), orders);
    forall x ensures Covered(Stack(Pow2(maxOrder), orders), x) <==> Pow2(maxOrder) - Pages(orders) <= x < Pow2(maxOrder) {
      StackCovers(Pow2(maxOrder), orders, x);
    }
  }

  /** With no page left every request is refused. */
  lemma NothingLeft(maxOrder: nat, order: nat)
    requires maxOrder >= 2 && order < maxOrder
    ensures AllocPages(FreeLists(maxOrder, 0), order) == Grant(FreeLists(maxOrder, 0), NONE)
  {
    forall k | 0 <= k < maxOrder ensures FreeLists(maxOrder, 0)[k] == [] {}
    AllEmpty(FreeLists(maxOrder, 0), order);
  }

  lemma AllEmpty(fl: Lists, order: nat)
    requires order < |fl| && forall k :: 0 <= k < |fl| ==> fl[k] == []
    ensures AllocPages(fl, order) == Grant(fl, NONE)
  {}
}
