/**
 The index arithmetic of the buddy allocator's `mm_free`: as long as the bit for the pair was set,
 the freed block is merged with its buddy and the loop goes on with the block one order up.  The
 bits found in the bitmaps are a parameter.
 */
module BuddyMerge {
  import opened Powers
  import opened Bits
  import opened BuddyModel

  /** The aligned block of the next order that contains `s`. */
  function Parent(s: Span): Span {
    Span(s.start - Rem(s.start, Pow2(s.order + 1)), s.order + 1)
  }

  /** The other half of the parent. */
  function Buddy(s: Span): Span {
    if Lower(Parent(s)) == s then Upper(Parent(s)) else Lower(Parent(s))
  }

  ghost predicate Aligned(s: Span) { 0 <= s.start && Rem(s.start, Pow2(s.order)) == 0 }

  /** The `q`-th block of order `k`: quotient and remainder by the block size one order up. */
  lemma Halves(q: nat, k: nat)
    ensures var x, m := q * Pow2(k), Pow2(k + 1); x / m == q / 2 && Rem(x, m) == if q % 2 == 0 then 0 else Pow2(k)
  {
    var m := Pow2(k);
    assert q * m == (2 * m) * (q / 2) + (q % 2) * m by {
      assert q == 2 * (q / 2) + q % 2;
      assert q * m == (2 * (q / 2) + q % 2) * m;
      Twice(q / 2, m);
    }
    assert (q % 2) * m == if q % 2 == 0 then 0 else m;
    DivUnique(q * m, 2 * m, q / 2, (q % 2) * m);
  }

  /** Where the `q`-th block of order `k` starts. */
  function BlockStart(q: nat, k: nat): nat { q * Pow2(k) }

  lemma BlockNumber(s: Span) returns (q: nat)
    requires Aligned(s)
    ensures s.start == BlockStart(q, s.order)
  {
    q := s.start / Pow2(s.order);
  }

  /** Where the parent and the buddy of the `q`-th block start. */
  lemma FamilyStarts(s: Span, q: nat)
    requires s.start == BlockStart(q, s.order)
    ensures Parent(s) == Span(BlockStart(q / 2, s.order + 1), s.order + 1)
    ensures Buddy(s) == Span(BlockStart(Sibling(q), s.order), s.order)
    ensures Lower(Parent(s)) == if q % 2 == 0 then s else Buddy(s)
    ensures Upper(Parent(s)) == if q % 2 == 0 then Buddy(s) else s
  {
    hide Rem;
    var m := Pow2(s.order);
    Halves(q, s.order);
    HalfOf(q, m);
    assert Pow2(s.order + 1) == 2 * m;
    if q % 2 == 0 { Next(q, m); } else { Next(q - 1, m); }
  }

  lemma HalfOf(q: nat, m: nat)
    ensures (q / 2) * (2 * m) == (if q % 2 == 0 then q * m else q * m - m)
  {
    Twice(q / 2, m);
    if q % 2 == 0 { assert q == 2 * (q / 2); } else { assert q == 2 * (q / 2) + 1; }
  }

  lemma SiblingSibling(q: nat)
    ensures Sibling(Sibling(q)) == q && Sibling(q) / 2 == q / 2 && Sibling(q) % 2 != q % 2
  {}

  lemma Next(q: nat, m: nat)
    ensures (q + 1) * m == q * m + m
  {}

  lemma MultipleAligned(q: nat, k: nat)
    ensures Aligned(Span(BlockStart(q, k), k))
  {
    MultipleMod(Pow2(k), q);
  }

  /** A block and its buddy are the two halves of the aligned parent. */
  lemma ParentIsUnion(s: Span)
    requires Aligned(s)
    ensures Aligned(Parent(s)) && Aligned(Buddy(s))
    ensures {s, Buddy(s)} == {Lower(Parent(s)), Upper(Parent(s))} && Apart(s, Buddy(s))
    ensures Buddy(Buddy(s)) == s && Parent(Buddy(s)) == Parent(s)
    ensures Parent(s).start <= s.start && s.End() <= Parent(s).End()
  {
    hide Rem, Parent, Buddy, Aligned, BlockStart;
    var q := BlockNumber(s);
    SiblingSibling(q);
    FamilyStarts(s, q);
    FamilyStarts(Buddy(s), Sibling(q));
    MultipleAligned(q / 2, s.order + 1);
    MultipleAligned(Sibling(q), s.order);
  }

  /** The block `s` merged upwards through every order whose bit was set. */
  function Merged(s: Span, wasSet: seq<bool>): Span
    decreases |wasSet| - s.order
  {
    if s.order < |wasSet| && wasSet[s.order] then Merged(Parent(s), wasSet) else s
  }

  /** The starts of the buddies met on the way. */
  function Buddies(s: Span, wasSet: seq<bool>): seq<int>
    decreases |wasSet| - s.order
  {
    if s.order < |wasSet| && wasSet[s.order] then [Buddy(s).start] + Buddies(Parent(s), wasSet) else []
  }

  /** The merged block is aligned, contains the freed one, and has exactly the orders with set bits merged in. */
  lemma {:induction false} MergedContains(s: Span, wasSet: seq<bool>)
    requires Aligned(s)
    ensures var t := Merged(s, wasSet);
      && Aligned(t) && t.start <= s.start && s.End() <= t.End()
      && s.order <= t.order
      && (t == s || t.order <= |wasSet|)
      && (forall k :: s.order <= k < t.order && k < |wasSet| ==> wasSet[k])
      && (t.order < |wasSet| ==> !wasSet[t.order])
      && |Buddies(s, wasSet)| == t.order - s.order
    decreases |wasSet| - s.order
  {
    hide Rem, Buddy, Parent, Merged, Buddies;
    if s.order < |wasSet| && wasSet[s.order] {
      ParentStart(s);
      ParentIsUnion(s);
      MergeStep(s, wasSet);
      MergedContains(Parent(s), wasSet);
    } else {
      MergeEnd(s, wasSet);
    }
  }

  /** One turn of the loop: what the shifts, the xor and the mask compute in words of `w` bits. */
  lemma Turn(w: nat, s: Span, q: nat)
    requires s.start == BlockStart(q, s.order) && s.order < w && s.start < Pow2(w)
    ensures Aligned(s)
    ensures Xor(s.start, Shl(1, s.order)) == Buddy(s).start
    ensures Shr(s.start, 1 + s.order) == q / 2
    ensures Pow2(s.order + 1) <= Pow2(w)
    ensures And(s.start, Pow2(w) - Pow2(s.order + 1)) == Parent(s).start == BlockStart(q / 2, s.order + 1)
  {
    hide Rem, Parent, Buddy, Aligned, Xor, And, Shr;
    MultipleAligned(q, s.order);
    XorSibling(q, s.order);
    FamilyStarts(s, q);
    ShrIsDiv(s.start, s.order + 1);
    Halves(q, s.order);
    MaskRoundsDown(w, s.order + 1, s.start);
    MaskIsParent(s);
  }

  lemma MaskIsParent(s: Span)
    ensures Parent(s).start == s.start - s.start % Pow2(s.order + 1)
  {}

  /**
   The merge loop on indices; `w` is the width of `unsigned long`, 32 or 64 bits by the build.  The
   shifts of the `int`s 1 and ~0 limit the orders to 30.
   */
  method MergeUp(w: nat, pageN0: nat, order0: nat, wasSet: seq<bool>) returns (pageN: nat, order: nat, bitIndex: nat, buddies: seq<int>)
    requires |wasSet| <= 30 < w && order0 <= |wasSet| && pageN0 < Pow2(w) && Aligned(Span(pageN0, order0))
    ensures Span(pageN, order) == Merged(Span(pageN0, order0), wasSet)
    ensures bitIndex == Shr(pageN, 1 + order)
    ensures buddies == Buddies(Span(pageN0, order0), wasSet)
  {
    hide Merged, Buddies, Parent, Buddy, Xor, And, Pow2, Rem, Aligned, BlockStart, Shr;
    pageN, order, buddies := pageN0, order0, [];
    ghost var q := BlockNumber(Span(pageN, order));
    Turn(w, Span(pageN, order), q);
    bitIndex := Shr(pageN, 1 + order);
    while order < |wasSet|
      invariant order0 <= order <= |wasSet| && pageN == BlockStart(q, order) && pageN < Pow2(w)
      invariant bitIndex == q / 2
      invariant Merged(Span(pageN, order), wasSet) == Merged(Span(pageN0, order0), wasSet)
      invariant buddies + Buddies(Span(pageN, order), wasSet) == Buddies(Span(pageN0, order0), wasSet)
    {
      ghost var s := Span(pageN, order);
      Turn(w, s, q);
      MergeStep(s, wasSet);
      if !wasSet[order] { break; }
      var buddyIdx := Xor(pageN, Shl(1, order));
      buddies := buddies + [buddyIdx];
      order := order + 1;
      ShrOne(bitIndex);
      bitIndex := Shr(bitIndex, 1);
      ParentStart(s);
      pageN := And(pageN, Pow2(w) - Pow2(order));
      q := q / 2;
    }
    Turn(w, Span(pageN, order), q);
    MergeEnd(Span(pageN, order), wasSet);
  }

  lemma ShrOne(x: nat)
    ensures Shr(x, 1) == x / 2
  {}

  lemma ParentStart(s: Span)
    requires 0 <= s.start
    ensures 0 <= Parent(s).start <= s.start && Parent(s).order == s.order + 1
  {
    RemBelow(s.start, Pow2(s.order + 1));
  }

  lemma RemBelow(x: nat, m: nat)
    requires m > 0
    ensures Rem(x, m) <= x
  {
    if x < m { DivUnique(x, m, 0, x); }
  }

  lemma MergeStep(s: Span, wasSet: seq<bool>)
    requires s.order < |wasSet|
    ensures wasSet[s.order] ==> Merged(s, wasSet) == Merged(Parent(s), wasSet)
    ensures wasSet[s.order] ==> Buddies(s, wasSet) == [Buddy(s).start] + Buddies(Parent(s), wasSet)
  {}

  lemma MergeEnd(s: Span, wasSet: seq<bool>)
    requires s.order >= |wasSet| || !wasSet[s.order]
    ensures Merged(s, wasSet) == s && Buddies(s, wasSet) == []
  {}
}
