/**
 Circular doubly linked lists laid out in two arrays of links.  Node `k` below `heads` is the head
 of list `k`; page `p` is node `heads + p`.
 */
module Rings {
  import opened BuddyModel
  import opened Machine

  /** The `i`-th stop on ring `k`: its head, then its pages. */
  function Stop(heads: nat, fl: Lists, k: nat, i: nat): int
    requires k < |fl| && i <= |fl[k]|
  {
    if i == 0 then k else heads + fl[k][i - 1]
  }

  function After(fl: Lists, k: nat, i: nat): nat
    requires k < |fl| && i <= |fl[k]|
  {
    if i == |fl[k]| then 0 else i + 1
  }

  ghost predicate Linked(nx: seq<int>, pv: seq<int>, x: int, y: int) {
    0 <= x < |nx| == |pv| && 0 <= y < |nx| && nx[x] == y && pv[y] == x
  }

  /** Going round ring `k` by `next` meets the pages of list `k` in order, and `prev` goes back. */
  ghost predicate Ring(nx: seq<int>, pv: seq<int>, heads: nat, fl: Lists, k: nat)
    requires k < |fl|
  {
    forall i :: 0 <= i <= |fl[k]| ==> Linked(nx, pv, Stop(heads, fl, k, i), Stop(heads, fl, k, After(fl, k, i)))
  }

  /** No page is on two lists, or twice on one. */
  ghost predicate Separate(fl: Lists) {
    && NoDups(fl)
    && forall k, j, p :: 0 <= k < |fl| && 0 <= j < |fl| && k != j && p in fl[k] ==> p !in fl[j]
  }

  ghost predicate AllRings(nx: seq<int>, pv: seq<int>, heads: nat, fl: Lists) {
    && heads == |fl|
    && (forall k, p :: 0 <= k < |fl| && p in fl[k] ==> 0 <= p)
    && forall k :: 0 <= k < |fl| ==> Ring(nx, pv, heads, fl, k)
  }

  lemma StopsDiffer(heads: nat, fl: Lists, k: nat, i: nat, j: nat, i': nat)
    requires heads == |fl| && Separate(fl) && k < |fl| && j < |fl| && i <= |fl[k]| && i' <= |fl[j]|
    requires forall k, p :: 0 <= k < |fl| && p in fl[k] ==> 0 <= p
    requires k != j || i != i'
    ensures Stop(heads, fl, k, i) != Stop(heads, fl, j, i')
  {
    if i > 0 { assert fl[k][i - 1] in fl[k]; }
    if i' > 0 { assert fl[j][i' - 1] in fl[j]; }
    assert NoDup(fl[k]);
  }

  /** Books in order mean that no page is listed twice. */
  lemma BooksSeparate(fl: Lists, given: iset<Span>, total: int)
    requires Books(fl, given, total)
    ensures Separate(fl)
    ensures forall k, p :: 0 <= k < |fl| && p in fl[k] ==> 0 <= p && p < total
  {
    forall k, j, p | 0 <= k < |fl| && 0 <= j < |fl| && k != j && p in fl[k] ensures p !in fl[j] {
      var s, t := Span(p, k), Span(p, j);
      assert s in Free(fl);
      assert t in Free(fl) ==> Apart(s, t);
    }
    forall k, p | 0 <= k < |fl| && p in fl[k] ensures 0 <= p && p < total {
      assert Span(p, k) in Free(fl);
      assert Fits(Span(p, k), total);
    }
  }

  // ---------------------------------------------------------------- list_add at the front

  /** The links after `list_add(head k, node of p)`. */
  ghost predicate Added(nx: seq<int>, pv: seq<int>, nx': seq<int>, pv': seq<int>, k: int, n: int) {
    && |nx| == |pv| == |nx'| == |pv'| && 0 <= k < |nx| && 0 <= n < |nx| && 0 <= nx[k] < |nx|
    && nx' == nx[n := nx[k]][k := n]
    && pv' == pv[nx[k] := n][n := k]
  }

  lemma AddOther(nx: seq<int>, pv: seq<int>, nx': seq<int>, pv': seq<int>, heads: nat, fl: Lists, k: nat, p: int, j: nat)
    requires AllRings(nx, pv, heads, fl) && Separate(fl) && k < |fl| && j < |fl| && j != k && 0 <= p
    requires forall k :: 0 <= k < |fl| ==> p !in fl[k]
    requires Added(nx, pv, nx', pv', k, heads + p)
    ensures Ring(nx', pv', heads, Push(fl, k, p), j)
  {
    var fl' := Push(fl, k, p);
    assert Ring(nx, pv, heads, fl, j) && Ring(nx, pv, heads, fl, k);
    forall i | 0 <= i <= |fl'[j]|
      ensures Linked(nx', pv', Stop(heads, fl', j, i), Stop(heads, fl', j, After(fl', j, i)))
    {
      var x, y := Stop(heads, fl, j, i), Stop(heads, fl, j, After(fl, j, i));
      assert Linked(nx, pv, x, y);
      assert Linked(nx, pv, Stop(heads, fl, k, 0), Stop(heads, fl, k, After(fl, k, 0)));
      StopsDiffer(heads, fl, j, i, k, 0);
      StopsDiffer(heads, fl, j, After(fl, j, i), k, After(fl, k, 0));
      NotOnRing(heads, fl, j, i, p);
      NotOnRing(heads, fl, j, After(fl, j, i), p);
    }
  }

  lemma NotOnRing(heads: nat, fl: Lists, j: nat, i: nat, p: int)
    requires heads == |fl| && j < |fl| && i <= |fl[j]| && 0 <= p && p !in fl[j]
    ensures Stop(heads, fl, j, i) != heads + p
  {
    if i > 0 { assert fl[j][i - 1] in fl[j]; }
  }

  lemma AddSame(nx: seq<int>, pv: seq<int>, nx': seq<int>, pv': seq<int>, heads: nat, fl: Lists, k: nat, p: int)
    requires AllRings(nx, pv, heads, fl) && Separate(fl) && k < |fl| && 0 <= p
    requires forall k :: 0 <= k < |fl| ==> p !in fl[k]
    requires Added(nx, pv, nx', pv', k, heads + p)
    ensures Ring(nx', pv', heads, Push(fl, k, p), k)
  {
    var fl' := Push(fl, k, p);
    assert Ring(nx, pv, heads, fl, k);
    assert Linked(nx, pv, Stop(heads, fl, k, 0), Stop(heads, fl, k, After(fl, k, 0)));
    forall i | 0 <= i <= |fl'[k]|
      ensures Linked(nx', pv', Stop(heads, fl', k, i), Stop(heads, fl', k, After(fl', k, i)))
    {
      if i >= 2 {
        // the stop that was number i - 1 is number i now
        var x, y := Stop(heads, fl, k, i - 1), Stop(heads, fl, k, After(fl, k, i - 1));
        assert Linked(nx, pv, x, y);
        assert Stop(heads, fl', k, i) == x && Stop(heads, fl', k, After(fl', k, i)) == y;
        StopsDiffer(heads, fl, k, i - 1, k, 0);
        StopsDiffer(heads, fl, k, After(fl, k, i - 1), k, After(fl, k, 0));
        NotOnRing(heads, fl, k, i - 1, p);
        NotOnRing(heads, fl, k, After(fl, k, i - 1), p);
      } else {
        NotOnRing(heads, fl, k, 0, p);
        NotOnRing(heads, fl, k, After(fl, k, 0), p);
      }
    }
  }

  lemma AddKeeps(nx: seq<int>, pv: seq<int>, nx': seq<int>, pv': seq<int>, heads: nat, fl: Lists, k: nat, p: int)
    requires AllRings(nx, pv, heads, fl) && Separate(fl) && k < |fl| && 0 <= p
    requires forall k :: 0 <= k < |fl| ==> p !in fl[k]
    requires Added(nx, pv, nx', pv', k, heads + p)
    ensures AllRings(nx', pv', heads, Push(fl, k, p))
  {
    hide Added, Ring, Separate;
    forall j | 0 <= j < |fl| ensures Ring(nx', pv', heads, Push(fl, k, p), j) {
      if j == k { AddSame(nx, pv, nx', pv', heads, fl, k, p); } else { AddOther(nx, pv, nx', pv', heads, fl, k, p, j); }
    }
  }

  // ---------------------------------------------------------------- list_del of the first entry

  /** The links after `list_del(n)`. */
  ghost predicate Removed(nx: seq<int>, pv: seq<int>, nx': seq<int>, pv': seq<int>, n: int) {
    && |nx| == |pv| == |nx'| == |pv'| && 0 <= n < |nx| && 0 <= nx[n] < |nx| && 0 <= pv[n] < |nx|
    && nx' == nx[pv[n] := nx[n]][n := NULL]
    && pv' == pv[nx[n] := pv[n]][n := NULL]
  }

  lemma DelOther(nx: seq<int>, pv: seq<int>, nx': seq<int>, pv': seq<int>, heads: nat, fl: Lists, k: nat, j: nat)
    requires AllRings(nx, pv, heads, fl) && Separate(fl) && k < |fl| && j < |fl| && j != k && fl[k] != []
    requires Removed(nx, pv, nx', pv', heads + fl[k][0])
    ensures Ring(nx', pv', heads, Pop(fl, k), j)
  {
    var fl' := Pop(fl, k);
    FirstLinks(nx, pv, heads, fl, k);
    assert Ring(nx, pv, heads, fl, j);
    forall i | 0 <= i <= |fl'[j]|
      ensures Linked(nx', pv', Stop(heads, fl', j, i), Stop(heads, fl', j, After(fl', j, i)))
    {
      var x, y := Stop(heads, fl, j, i), Stop(heads, fl, j, After(fl, j, i));
      assert Linked(nx, pv, x, y);
      StopsDiffer(heads, fl, j, i, k, 0);
      StopsDiffer(heads, fl, j, i, k, 1);
      StopsDiffer(heads, fl, j, After(fl, j, i), k, 1);
      StopsDiffer(heads, fl, j, After(fl, j, i), k, After(fl, k, 1));
    }
  }

  lemma FirstLinks(nx: seq<int>, pv: seq<int>, heads: nat, fl: Lists, k: nat)
    requires AllRings(nx, pv, heads, fl) && k < |fl| && fl[k] != []
    ensures Linked(nx, pv, k, heads + fl[k][0])
    ensures Linked(nx, pv, heads + fl[k][0], Stop(heads, fl, k, After(fl, k, 1)))
  {
    assert Ring(nx, pv, heads, fl, k);
    assert Linked(nx, pv, Stop(heads, fl, k, 0), Stop(heads, fl, k, After(fl, k, 0)));
    assert Linked(nx, pv, Stop(heads, fl, k, 1), Stop(heads, fl, k, After(fl, k, 1)));
  }

  lemma DelSame(nx: seq<int>, pv: seq<int>, nx': seq<int>, pv': seq<int>, heads: nat, fl: Lists, k: nat)
    requires AllRings(nx, pv, heads, fl) && Separate(fl) && k < |fl| && fl[k] != []
    requires Removed(nx, pv, nx', pv', heads + fl[k][0])
    ensures Ring(nx', pv', heads, Pop(fl, k), k)
  {
    var fl' := Pop(fl, k);
    FirstLinks(nx, pv, heads, fl, k);
    assert Ring(nx, pv, heads, fl, k);
    forall i | 0 <= i <= |fl'[k]|
      ensures Linked(nx', pv', Stop(heads, fl', k, i), Stop(heads, fl', k, After(fl', k, i)))
    {
      assert Stop(heads, fl', k, After(fl', k, 0)) == Stop(heads, fl, k, After(fl, k, 1));
      StopsDiffer(heads, fl, k, 0, k, 1);
      StopsDiffer(heads, fl, k, 1, k, After(fl, k, 1));
      if i > 0 {
        // the stop that was number i + 1 is number i now
        var x, y := Stop(heads, fl, k, i + 1), Stop(heads, fl, k, After(fl, k, i + 1));
        assert Linked(nx, pv, x, y);
        assert Stop(heads, fl', k, i) == x && Stop(heads, fl', k, After(fl', k, i)) == y;
        StopsDiffer(heads, fl, k, i + 1, k, 0);
        StopsDiffer(heads, fl, k, i + 1, k, 1);
        StopsDiffer(heads, fl, k, After(fl, k, i + 1), k, 1);
        StopsDiffer(heads, fl, k, After(fl, k, i + 1), k, After(fl, k, 1));
      }
    }
  }

  lemma DelKeeps(nx: seq<int>, pv: seq<int>, nx': seq<int>, pv': seq<int>, heads: nat, fl: Lists, k: nat)
    requires AllRings(nx, pv, heads, fl) && Separate(fl) && k < |fl| && fl[k] != []
    requires Removed(nx, pv, nx', pv', heads + fl[k][0])
    ensures AllRings(nx', pv', heads, Pop(fl, k))
  {
    hide Removed, Ring, Separate;
    forall j, p | 0 <= j < |fl| && p in Pop(fl, k)[j] ensures 0 <= p { assert p in fl[j]; }
    forall j | 0 <= j < |fl| ensures Ring(nx', pv', heads, Pop(fl, k), j) {
      if j == k { DelSame(nx, pv, nx', pv', heads, fl, k); } else { DelOther(nx, pv, nx', pv', heads, fl, k, j); }
    }
  }

  // ---------------------------------------------------------------- heads, and lists with one more page

  function EmptyLists(n: nat): Lists { seq(n, _ => []) }

  lemma InitRings(nx: seq<int>, pv: seq<int>, heads: nat)
    requires |nx| == |pv| && heads <= |nx| && forall j :: 0 <= j < heads ==> nx[j] == j && pv[j] == j
    ensures AllRings(nx, pv, heads, EmptyLists(heads)) && Separate(EmptyLists(heads))
  {}

  lemma EmptyHasNone(n: nat)
    ensures |EmptyLists(n)| == n && forall k, p :: 0 <= k < n ==> p !in EmptyLists(n)[k]
  {}

  /** The head of a list links to itself exactly when the list is empty, else to the first page. */
  lemma HeadLink(nx: seq<int>, pv: seq<int>, heads: nat, fl: Lists, k: nat)
    requires AllRings(nx, pv, heads, fl) && k < |fl|
    ensures 0 <= k < |nx| == |pv| && 0 <= nx[k] < |nx|
    ensures nx[k] == if fl[k] == [] then k else heads + fl[k][0]
    ensures fl[k] == [] <==> nx[k] == k
  {
    assert Ring(nx, pv, heads, fl, k);
    assert Linked(nx, pv, Stop(heads, fl, k, 0), Stop(heads, fl, k, After(fl, k, 0)));
    if fl[k] != [] { assert fl[k][0] in fl[k]; }
  }

  lemma PushSeparate(fl: Lists, k: nat, p: int)
    requires Separate(fl) && k < |fl| && forall k :: 0 <= k < |fl| ==> p !in fl[k]
    ensures Separate(Push(fl, k, p))
  {
    var fl' := Push(fl, k, p);
    assert NoDup(fl[k]);
    forall a, b, q | 0 <= a < |fl'| && 0 <= b < |fl'| && a != b && q in fl'[a] ensures q !in fl'[b] {
      assert q == p || q in fl[a];
    }
  }

  /** The start of a block in hand is on no list. */
  lemma InHand(fl: Lists, given: iset<Span>, total: int, s: Span)
    requires Books(fl, given, total) && s in given
    ensures 0 <= s.start < total && Separate(fl) && forall k :: 0 <= k < |fl| ==> s.start !in fl[k]
  {
    BooksSeparate(fl, given, total);
    assert Fits(s, total);
    forall k | 0 <= k < |fl| ensures s.start !in fl[k] {
      var t := Span(s.start, k);
      assert t in Free(fl) ==> Apart(s, t);
    }
  }

  lemma UnlinkedFirst(nx: seq<int>, pv: seq<int>, heads: nat, fl: Lists, k: nat)
    requires AllRings(nx, pv, heads, fl) && k < |fl| && fl[k] != []
    ensures var n := heads + fl[k][0];
      |nx| == |pv| && 0 <= n < |nx| && 0 <= nx[n] < |nx| && 0 <= pv[n] < |nx|
  {
    FirstLinks(nx, pv, heads, fl, k);
  }

  /** Taking the first block off a list into the hand keeps the books. */
  lemma TakeOut(fl: Lists, given: iset<Span>, total: int, k: nat)
    requires Books(fl, given, total) && k < |fl| && fl[k] != []
    ensures var s := Span(fl[k][0], k);
      && s !in given && Books(Pop(fl, k), given + iset{s}, total)
      && given + iset{s} - iset{s} == given
  {
    hide Partition, NoDups, Free;
    var s := Span(fl[k][0], k);
    PopFree(fl, k);
    assert s !in given;
    assert Free(Pop(fl, k)) + (given + iset{s}) == Free(fl) + given;
  }

  lemma StartsDiffer(fl: Lists, given: iset<Span>, total: int, s: Span, t: Span)
    requires Books(fl, given, total) && s in given && t in given && s != t
    ensures s.start != t.start
  {
    assert Apart(s, t);
  }
}