/** Going through a list in order and taking something from some of its elements. */
module Selections {
  import opened Addresses

  /** The positions taken: ascending, and all those from which there is something to take. */
  ghost predicate TakenAt<T, U>(xs: seq<T>, take: T -> Option<U>, ys: seq<U>, at: seq<int>) {
    |at| == |ys|
    && (forall i :: 0 <= i < |at| ==> 0 <= at[i] < |xs| && take(xs[at[i]]) == Some(ys[i]))
    && (forall i, j :: 0 <= i < j < |at| ==> at[i] < at[j])
    && (forall k :: 0 <= k < |xs| && take(xs[k]).Some? ==> k in at)
  }

  ghost predicate Taken<T, U>(xs: seq<T>, take: T -> Option<U>, ys: seq<U>) {
    exists at: seq<int> :: TakenAt(xs, take, ys, at)
  }

  lemma TakenNothing<T, U>(take: T -> Option<U>)
    ensures Taken([], take, [])
  {
    assert TakenAt([], take, [], []);
  }

  lemma TakenMore<T, U>(xs: seq<T>, take: T -> Option<U>, ys: seq<U>, x: T)
    requires Taken(xs, take, ys)
    ensures Taken(xs + [x], take, if take(x).Some? then ys + [take(x).value] else ys)
  {
    var at: seq<int> :| TakenAt(xs, take, ys, at);
    if take(x).Some? {
      TakenOneMore(xs, take, ys, at, x);
    } else {
      SkippedOneMore(xs, take, ys, at, x);
    }
  }

  lemma TakenOneMore<T, U>(xs: seq<T>, take: T -> Option<U>, ys: seq<U>, at: seq<int>, x: T)
    requires TakenAt(xs, take, ys, at) && take(x).Some?
    ensures TakenAt(xs + [x], take, ys + [take(x).value], at + [|xs|])
  {
    var all, taken, more := xs + [x], ys + [take(x).value], at + [|xs|];
    forall i | 0 <= i < |more|
      ensures 0 <= more[i] < |all| && take(all[more[i]]) == Some(taken[i])
    {
      if i < |at| {
        assert more[i] == at[i] && taken[i] == ys[i] && all[at[i]] == xs[at[i]];
      }
    }
    forall i, j | 0 <= i < j < |more|
      ensures more[i] < more[j]
    {
      assert more[i] == at[i];
    }
    forall k | 0 <= k < |all| && take(all[k]).Some?
      ensures k in more
    {
      if k < |xs| {
        assert all[k] == xs[k] && k in at;
      } else {
        assert more[|at|] == k;
      }
    }
  }

  lemma SkippedOneMore<T, U>(xs: seq<T>, take: T -> Option<U>, ys: seq<U>, at: seq<int>, x: T)
    requires TakenAt(xs, take, ys, at) && take(x).None?
    ensures TakenAt(xs + [x], take, ys, at)
  {
    var all := xs + [x];
    forall i | 0 <= i < |at|
      ensures 0 <= at[i] < |all| && take(all[at[i]]) == Some(ys[i])
    {
      assert all[at[i]] == xs[at[i]];
    }
    forall k | 0 <= k < |all| && take(all[k]).Some?
      ensures k in at
    {
      assert all[k] == xs[k];
    }
  }
}
