/** Counting the threads that are in a given group of program points, and gathering what they carry. */
module Threads {

  function One<G, T>(member: (G, T) -> bool, g: G, t: T): nat { if member(g, t) then 1 else 0 }

  function Count<G, T>(member: (G, T) -> bool, g: G, ts: seq<T>): nat {
    if ts == [] then 0 else One(member, g, ts[0]) + Count(member, g, ts[1..])
  }

  lemma {:induction false} CountUpdate<G, T>(member: (G, T) -> bool, g: G, ts: seq<T>, i: nat, t: T)
    requires i < |ts|
    ensures Count(member, g, ts[i := t]) == Count(member, g, ts) - One(member, g, ts[i]) + One(member, g, t)
    ensures Count(member, g, ts) >= One(member, g, ts[i])
    decreases |ts|
  {
    var ts' := ts[i := t];
    if i == 0 {
      assert ts'[1..] == ts[1..];
    } else {
      assert ts'[1..] == ts[1..][i - 1 := t];
      CountUpdate(member, g, ts[1..], i - 1, t);
    }
  }

  lemma {:induction false} CountTwo<G, T>(member: (G, T) -> bool, g: G, ts: seq<T>, i: nat, j: nat)
    requires i < |ts| && j < |ts| && i != j && member(g, ts[i]) && member(g, ts[j])
    ensures Count(member, g, ts) >= 2
    decreases |ts|
  {
    var rest := ts[1..];
    if i == 0 {
      CountUpdate(member, g, rest, j - 1, ts[0]);
    } else if j == 0 {
      CountUpdate(member, g, rest, i - 1, ts[0]);
    } else {
      CountTwo(member, g, rest, i - 1, j - 1);
    }
  }

  lemma {:induction false} CountNone<G, T>(member: (G, T) -> bool, g: G, ts: seq<T>)
    requires forall i :: 0 <= i < |ts| ==> !member(g, ts[i])
    ensures Count(member, g, ts) == 0
  {
    if ts != [] { CountNone(member, g, ts[1..]); }
  }

  /** If one thread is in the group and no other, the count is one. */
  lemma {:induction false} CountSole<G, T>(member: (G, T) -> bool, g: G, ts: seq<T>, i: nat)
    requires i < |ts| && forall j :: 0 <= j < |ts| && j != i ==> !member(g, ts[j])
    ensures Count(member, g, ts) == One(member, g, ts[i])
    decreases |ts|
  {
    if i == 0 {
      CountNone(member, g, ts[1..]);
    } else {
      CountSole(member, g, ts[1..], i - 1);
    }
  }

  /** Everything the threads carry, put together. */
  function Gather<T, X>(own: T -> multiset<X>, ts: seq<T>): multiset<X> {
    if ts == [] then multiset{} else own(ts[0]) + Gather(own, ts[1..])
  }

  lemma {:induction false} GatherUpdate<T, X>(own: T -> multiset<X>, ts: seq<T>, i: nat, t: T)
    requires i < |ts|
    ensures Gather(own, ts[i := t]) + own(ts[i]) == Gather(own, ts) + own(t)
    decreases |ts|
  {
    var ts' := ts[i := t];
    if i == 0 {
      assert ts'[1..] == ts[1..];
    } else {
      var rest := ts[1..];
      assert ts'[1..] == rest[i - 1 := t];
      GatherUpdate(own, rest, i - 1, t);
      Prepend(own(ts[0]), Gather(own, rest[i - 1 := t]), own(ts[i]), Gather(own, rest), own(t));
    }
  }

  lemma Prepend<X>(a: multiset<X>, x: multiset<X>, y: multiset<X>, u: multiset<X>, v: multiset<X>)
    requires x + y == u + v
    ensures a + x + y == a + u + v
  {
    assert a + x + y == a + (x + y);
    assert a + u + v == a + (u + v);
  }

  lemma {:induction false} GatherNone<T, X>(own: T -> multiset<X>, ts: seq<T>)
    requires forall i :: 0 <= i < |ts| ==> own(ts[i]) == multiset{}
    ensures Gather(own, ts) == multiset{}
  {
    if ts != [] { GatherNone(own, ts[1..]); }
  }
}
