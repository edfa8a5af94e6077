/** Ascending listings of sets: what iterating over a map's keys and then sorting them
    gives, whatever order the iteration took. */
module Ordered {

  ghost predicate Injective<T(!new)>(rank: T -> nat) {
    forall a, b :: rank(a) == rank(b) ==> a == b
  }

  ghost predicate Ascending<T>(rank: T -> nat, xs: seq<T>) {
    forall i, j :: 0 <= i < j < |xs| ==> rank(xs[i]) < rank(xs[j])
  }

  ghost function Members<T>(xs: seq<T>): set<T> {
    set x | x in xs
  }

  lemma NoMembers<T>(xs: seq<T>)
    ensures Members(xs) == {} <==> xs == []
  {
    if |xs| > 0 {
      assert xs[0] in Members(xs);
    }
  }

  /** The last of an ascending listing is its greatest member, and dropping it drops that member. */
  lemma LastIsGreatest<T>(rank: T -> nat, xs: seq<T>)
    requires Ascending(rank, xs) && |xs| > 0
    ensures var x := xs[|xs| - 1];
            x in Members(xs)
            && (forall y :: y in Members(xs) ==> y == x || rank(y) < rank(x))
            && Members(xs[..|xs| - 1]) == Members(xs) - {x}
            && Ascending(rank, xs[..|xs| - 1])
  {
    var n := |xs| - 1;
    assert xs == xs[..n] + [xs[n]];
    forall y | y in xs[..n]
      ensures rank(y) < rank(xs[n])
    {
      var i :| 0 <= i < n && xs[..n][i] == y;
      assert xs[i] == y;
    }
  }

  /** A set has only one ascending listing. */
  lemma {:induction false} AscendingUnique<T(!new)>(rank: T -> nat, xs: seq<T>, ys: seq<T>)
    requires Injective(rank) && Ascending(rank, xs) && Ascending(rank, ys)
    requires Members(xs) == Members(ys)
    ensures xs == ys
    decreases |xs|
  {
    NoMembers(xs);
    NoMembers(ys);
    if |xs| > 0 && |ys| > 0 {
      LastIsGreatest(rank, xs);
      LastIsGreatest(rank, ys);
      assert xs[|xs| - 1] == ys[|ys| - 1];
      AscendingUnique(rank, xs[..|xs| - 1], ys[..|ys| - 1]);
    }
  }

  lemma MembersAround<T>(before: seq<T>, a: T, after: seq<T>)
    ensures Members(before + [a] + after) == Members(before + after) + {a}
  {
    assert forall z :: z in before + [a] + after <==> z in before + after || z == a;
  }

  /** Putting an element between the smaller and the larger part of an ascending listing. */
  lemma AscendingAround<T>(rank: T -> nat, xs: seq<T>, k: nat, a: T)
    requires Ascending(rank, xs) && k <= |xs|
    requires forall i :: 0 <= i < k ==> rank(xs[i]) < rank(a)
    requires forall j :: k <= j < |xs| ==> rank(a) < rank(xs[j])
    ensures Ascending(rank, xs[..k] + [a] + xs[k..])
  {
    var ys := xs[..k] + [a] + xs[k..];
    forall i, j | 0 <= i < j < |ys|
      ensures rank(ys[i]) < rank(ys[j])
    {
      var x := if i < k then xs[i] else if i == k then a else xs[i - 1];
      var y := if j < k then xs[j] else if j == k then a else xs[j - 1];
      assert ys[i] == x && ys[j] == y;
    }
  }

  /** Inserts one element into an ascending listing that does not hold it. */
  method Insert<T(!new)>(rank: T -> nat, xs: seq<T>, a: T) returns (ys: seq<T>)
    requires Injective(rank) && Ascending(rank, xs) && a !in xs
    ensures Ascending(rank, ys) && Members(ys) == Members(xs) + {a}
  {
    var k := 0;
    while k < |xs| && rank(xs[k]) < rank(a)
      invariant 0 <= k <= |xs|
      invariant forall i :: 0 <= i < k ==> rank(xs[i]) < rank(a)
    {
      k := k + 1;
    }
    assert k < |xs| ==> rank(a) < rank(xs[k]);
    AscendingAround(rank, xs, k, a);
    MembersAround(xs[..k], a, xs[k..]);
    assert xs == xs[..k] + xs[k..];
    ys := xs[..k] + [a] + xs[k..];
  }

  /** Any iteration over a set followed by a sort: the ascending listing of its members. */
  method Sort<T(!new,==)>(rank: T -> nat, s: set<T>) returns (xs: seq<T>)
    requires Injective(rank)
    ensures Ascending(rank, xs) && Members(xs) == s
  {
    xs := [];
    var rest := s;
    while rest != {}
      invariant rest <= s
      invariant Ascending(rank, xs) && Members(xs) == s - rest
      decreases rest
    {
      var a :| a in rest;
      assert a !in Members(xs);
      xs := Insert(rank, xs, a);
      rest := rest - {a};
    }
  }
}
