/** The code of active_ips.go and bsdProxyTargets (runtime_bsd.go) as it runs while it holds
    the mutex, in the terms of the interleaved steps of module Registry. */
module ActiveIps {
  import opened Addresses
  import opened Ordered
  import opened Registry
  import opened RegistryRuns

  lemma {:induction false} SameSizeSubset<T>(a: set<T>, b: set<T>)
    requires a <= b && |a| == |b|
    ensures a == b
  {
    if a == {} {
      assert |b| == 0;
    } else {
      var x :| x in a;
      SameSizeSubset(a - {x}, b - {x});
      assert a == (a - {x}) + {x} && b == (b - {x}) + {x};
    }
  }

  /** sameAddressSet: sizes first, then membership one way. */
  method SameAddressSet(a: Set, b: Set) returns (same: bool)
    ensures same <==> a == b
  {
    if |a| != |b| {
      return false;
    }
    var rest := a;
    while rest != {}
      invariant rest <= a && a - rest <= b
      decreases rest
    {
      var address :| address in rest;
      if address !in b {
        return false;
      }
      rest := rest - {address};
    }
    SameSizeSubset(a, b);
    return true;
  }

  class ActiveIps {
    var sources: Sources
    var published: Set
    var token: bool
    var queue: seq<NetAddr>

    ghost predicate Valid()
      reads this
    {
      published == Union(sources) && |queue| <= QUEUE_SIZE
      && forall a :: a in Union(sources) ==> a.V6? && a.Unmap() == a
    }

    constructor ()
      ensures Valid() && sources == map[] && published == {} && !token && queue == []
    {
      sources, published, token, queue := map[], {}, false, [];
    }

    /** The union of all sources, source by source. */
    method BuildUnion() returns (union: Set)
      ensures union == Union(sources)
    {
      union := {};
      var rest := sources.Keys;
      while rest != {}
        invariant rest <= sources.Keys
        invariant forall a :: a in union <==> exists s :: s in sources.Keys - rest && a in sources[s]
        decreases rest
      {
        var s :| s in rest;
        ghost var before := union;
        union := union + sources[s];
        forall a
          ensures a in union <==> exists t :: t in sources.Keys - (rest - {s}) && a in sources[t]
        {
          assert sources.Keys - (rest - {s}) == sources.Keys - rest + {s};
          if a in sources[s] {
            assert s in sources.Keys - (rest - {s});
          }
          if a in before {
            var t :| t in sources.Keys - rest && a in sources[t];
            assert t in sources.Keys - (rest - {s});
          }
        }
        rest := rest - {s};
      }
      assert sources.Keys - {} == sources.Keys;
    }

    /** replaceActiveIPSource. The published set is the new union, the signal is set when the
        source's set changed, and the addresses new to the source are offered to the queue,
        each once, as long as there is room. */
    method Replace(source: string, addresses: seq<NetAddr>)
      requires Valid()
      modifies this
      ensures Valid()
      ensures sources == old(sources)[source := Filter(addresses)]
      ensures forall a :: a in sources[source] <==>
                a.V6? && exists i :: 0 <= i < |addresses| && addresses[i].Unmap() == a
      ensures token == (old(token) || Of(old(sources), source) != Filter(addresses))
      ensures old(queue) <= queue
      ensures var added := Filter(addresses) - Of(old(sources), source);
              (if |old(queue)| + |added| <= QUEUE_SIZE then multiset(queue) == multiset(old(queue)) + multiset(added)
               else |queue| == QUEUE_SIZE && multiset(queue) <= multiset(old(queue)) + multiset(added))
    {
      var next := Collect(addresses);
      var previous := Of(sources, source);
      var same := SameAddressSet(previous, next);
      var added := next - previous;
      sources := sources[source := next];
      published := BuildUnion();
      MembersStayUnmapped(old(sources), source, next);
      token := token || !same;
      OfferAll(added);
    }

    /** The loop over publishNewActiveIP: a send that never blocks. */
    method OfferAll(added: Set)
      requires Valid()
      modifies this`queue
      ensures Valid() && old(queue) <= queue
      ensures if |old(queue)| + |added| <= QUEUE_SIZE then multiset(queue) == multiset(old(queue)) + multiset(added)
              else |queue| == QUEUE_SIZE && multiset(queue) <= multiset(old(queue)) + multiset(added)
    {
      var rest := added;
      ghost var sent := {};
      while rest != {}
        invariant rest <= added && sent == added - rest && |sent| + |rest| == |added|
        invariant Valid() && old(queue) <= queue
        invariant |queue| == if |old(queue)| + |sent| <= QUEUE_SIZE then |old(queue)| + |sent| else QUEUE_SIZE
        invariant if |old(queue)| + |sent| <= QUEUE_SIZE then multiset(queue) == multiset(old(queue)) + multiset(sent)
                  else multiset(queue) <= multiset(old(queue)) + multiset(sent)
        decreases rest
      {
        var a :| a in rest;
        assert multiset(sent + {a}) == multiset(sent) + multiset{a};
        if |queue| < QUEUE_SIZE {
          queue := queue + [a];
        }
        rest := rest - {a};
        sent := sent + {a};
      }
      assert sent == added;
    }

    /** activeAddressSnapshot: the members of the published union in ascending order. */
    method Snapshot() returns (addresses: seq<NetAddr>)
      requires Valid()
      ensures Ascending(RANK, addresses) && Members(addresses) == published
    {
      var seen := BuildUnion();
      RankOrders();
      addresses := Sort(RANK, seen);
    }

    /** bsdProxyTargets: the static addresses, then the active ones that pass the policy. */
    method BsdProxyTargets(fixed: seq<Prefix>) returns (targets: seq<NetAddr>)
      requires Valid()
      ensures Members(targets) == Wanted(StaticAddresses(fixed), Union(sources))
      ensures forall a :: a in targets <==>
                (exists i :: 0 <= i < |fixed| && a == V6(fixed[i].addr))
                || (NeedsAnnouncement(a) && exists s :: s in sources && a in sources[s])
      ensures |fixed| <= |targets| && forall i :: 0 <= i < |fixed| ==> targets[i] == V6(fixed[i].addr)
      ensures Ascending(RANK, targets[|fixed|..])
    {
      targets := AddressList(fixed);
      var active := Snapshot();
      var passing: seq<NetAddr> := [];
      for i := 0 to |active|
        invariant Passing(active[..i], passing)
      {
        assert active[..i + 1] == active[..i] + [active[i]];
        assert Ascending(RANK, active[..i + 1]);
        PassingMore(active[..i], passing, active[i]);
        if NeedsAnnouncement(active[i]) {
          passing := passing + [active[i]];
        }
      }
      assert active[..|active|] == active;
      targets := targets + passing;
      assert Members(targets) == Members(AddressList(fixed)) + Members(passing);
      forall a
        ensures a in targets <==> a in Wanted(StaticAddresses(fixed), Union(sources))
      {
        assert a in targets <==> a in Members(targets);
      }
      TargetsAre(fixed, sources);
    }
  }

  function AddressList(fixed: seq<Prefix>): (xs: seq<NetAddr>)
    ensures |xs| == |fixed|
  {
    seq(|fixed|, i requires 0 <= i < |fixed| => V6(fixed[i].addr))
  }

  ghost function StaticAddresses(fixed: seq<Prefix>): set<NetAddr> {
    Members(AddressList(fixed))
  }

  /** The wanted addresses, one by one. */
  lemma TargetsAre(fixed: seq<Prefix>, sources: Sources)
    ensures forall a :: a in Wanted(StaticAddresses(fixed), Union(sources)) <==>
              (exists i :: 0 <= i < |fixed| && a == V6(fixed[i].addr))
              || (NeedsAnnouncement(a) && exists s :: s in sources && a in sources[s])
  {
    hide NeedsAnnouncement;
    var xs := AddressList(fixed);
    forall a
      ensures a in StaticAddresses(fixed) <==> exists i :: 0 <= i < |fixed| && a == V6(fixed[i].addr)
    {
      assert forall i :: 0 <= i < |fixed| ==> xs[i] == V6(fixed[i].addr);
      assert a in StaticAddresses(fixed) <==> a in xs;
      if i :| 0 <= i < |fixed| && a == V6(fixed[i].addr) {
        assert xs[i] == a;
      }
    }
  }

  /** The members of an ascending listing that pass the policy, still ascending. */
  ghost predicate Passing(active: seq<NetAddr>, passing: seq<NetAddr>) {
    Ascending(RANK, passing)
    && Members(passing) == (set a | a in active && NeedsAnnouncement(a))
  }

  lemma PassingMore(active: seq<NetAddr>, passing: seq<NetAddr>, a: NetAddr)
    requires Passing(active, passing) && Ascending(RANK, active + [a])
    ensures Passing(active + [a], if NeedsAnnouncement(a) then passing + [a] else passing)
  {
    forall x | x in passing
      ensures RANK(x) < RANK(a)
    {
      assert x in Members(passing);
      var i :| 0 <= i < |active| && active[i] == x;
      assert (active + [a])[i] == x && (active + [a])[|active|] == a;
    }
    assert Members(passing + [a]) == Members(passing) + {a};
  }

  lemma MembersStayUnmapped(sources: Sources, source: string, next: Set)
    requires forall a :: a in Union(sources) ==> a.V6? && a.Unmap() == a
    requires forall a :: a in next ==> a.V6? && a.Unmap() == a
    ensures forall a :: a in Union(sources[source := next]) ==> a.V6? && a.Unmap() == a
  {
    var s' := sources[source := next];
    forall a | a in Union(s')
      ensures a.V6? && a.Unmap() == a
    {
      var s :| s in s' && a in s'[s];
      if s != source {
        assert a in Union(sources);
      }
    }
  }

  /** A call of Replace that no other producer interrupts is one pass through the steps of the
      machine: what they leave in the registry is what Replace leaves, and the addresses that
      remain to be offered are the ones it offers. */
  lemma UninterruptedReplace(s: State, p: nat, source: string, addresses: seq<NetAddr>) returns (s': State)
    requires Reachable(StoreThenUnlock, s)
    requires p < |s.producers| && s.producers[p].Idle? && s.mutex == None
    ensures Reachable(StoreThenUnlock, s')
    ensures s'.sources == s.sources[source := Filter(addresses)]
    ensures s'.published == Union(s'.sources) && s'.mutex == None
    ensures s'.token == (s.token || Of(s.sources, source) != Filter(addresses))
    ensures s'.producers == s.producers[p := Offering(Filter(addresses) - Of(s.sources, source))]
  {
    hide Reachable, Filter, Union, Of;
    var o := StoreThenUnlock;
    s' := ReachesNext(o, s, Begin(p, source, Found(addresses)));
    s' := ReachesNext(o, s', Lock(p));
    s' := ReachesNext(o, s', Update(p));
    s' := ReachesNext(o, s', Store(p));
    s' := ReachesNext(o, s', Unlock(p));
    s' := ReachesNext(o, s', Signal(p));
  }
}
