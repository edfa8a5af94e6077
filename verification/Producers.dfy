/** The refreshes that feed the registry (refreshDockerNetworks and dockerRefreshNetwork in
    docker.go, cniRefreshNetwork in cni.go): a refresh that fails empties its source. */
module Producers {
  import opened Addresses
  import opened Ordered
  import opened Registry
  import opened ActiveIps

  function DockerSource(name: string): string { "docker:" + name }

  function CniSource(dir: string): string { "cni:" + dir }

  lemma SourcesApart(a: string, b: string)
    ensures DockerSource(a) == DockerSource(b) ==> a == b
    ensures DockerSource(a) != CniSource(b)
  {
    assert DockerSource(a)[7..] == a && DockerSource(b)[7..] == b;
    assert DockerSource(a)[0] == 'd' && CniSource(b)[0] == 'c';
  }

  /** One refresh: what was found, or nothing. */
  method Refreshed(ips: ActiveIps, source: string, r: Refresh)
    requires ips.Valid()
    modifies ips
    ensures ips.Valid() && ips.sources == old(ips.sources)[source := Contents(r)]
    ensures forall a :: a in ips.sources[source] <==>
              r.Found? && a.V6? && exists i :: 0 <= i < |r.addresses| && r.addresses[i].Unmap() == a
    ensures ips.token == (old(ips.token) || Of(old(ips.sources), source) != Contents(r))
  {
    match r {
      case Failed =>
        assert Filter([]) == {};
        ips.Replace(source, []);
      case Found(addresses) => ips.Replace(source, addresses);
    }
  }

  ghost function FailedAmong(networks: set<string>, inspect: string -> Refresh): set<string> {
    set n | n in networks && inspect(n).Failed?
  }

  /** Each of these networks' sources holds what its refresh found, and no other source differs
      from before. */
  ghost predicate Refreshes(before: Sources, after: Sources, networks: set<string>, inspect: string -> Refresh) {
    (forall n :: n in networks ==> Of(after, DockerSource(n)) == Contents(inspect(n)))
    && forall s :: (forall n :: n in networks ==> s != DockerSource(n)) ==> Of(after, s) == Of(before, s)
  }

  /** Some of these networks' sources held something else before. */
  ghost predicate SomeChange(before: Sources, networks: set<string>, inspect: string -> Refresh) {
    exists n :: n in networks && Of(before, DockerSource(n)) != Contents(inspect(n))
  }

  lemma RefreshesMore(before: Sources, after: Sources, networks: set<string>, inspect: string -> Refresh, n: string)
    requires Refreshes(before, after, networks, inspect) && n !in networks
    ensures Of(after, DockerSource(n)) == Of(before, DockerSource(n))
    ensures Refreshes(before, after[DockerSource(n) := Contents(inspect(n))], networks + {n}, inspect)
  {
    hide Contents;
    forall m | m in networks
      ensures DockerSource(m) != DockerSource(n)
    {
      SourcesApart(m, n);
    }
  }

  lemma FailedMore(failed: seq<string>, networks: set<string>, inspect: string -> Refresh, n: string)
    requires Members(failed) == FailedAmong(networks, inspect)
    ensures Members(if inspect(n).Failed? then failed + [n] else failed) == FailedAmong(networks + {n}, inspect)
  {
    assert Members(failed + [n]) == Members(failed) + {n};
  }

  /** Refreshes each configured network once, in spite of failures, and reports which failed.
      Afterwards each network's source holds what its refresh found, no other source has
      changed, and the signal is set exactly when it was or some source has changed. */
  method RefreshDockerNetworks(ips: ActiveIps, networks: seq<string>, inspect: string -> Refresh)
    returns (failed: seq<string>)
    requires ips.Valid()
    modifies ips
    ensures ips.Valid()
    ensures Refreshes(old(ips.sources), ips.sources, Members(networks), inspect)
    ensures Members(failed) == FailedAmong(Members(networks), inspect)
    ensures ips.token <==> old(ips.token) || SomeChange(old(ips.sources), Members(networks), inspect)
  {
    assert Refreshes(ips.sources, ips.sources, {}, inspect);
    assert Members<string>([]) == FailedAmong({}, inspect);
    hide Refreshes, FailedAmong, Contents, Of;
    var seen: set<string> := {};
    failed := [];
    for i := 0 to |networks|
      invariant ips.Valid() && seen == Members(networks[..i])
      invariant Refreshes(old(ips.sources), ips.sources, seen, inspect)
      invariant Members(failed) == FailedAmong(seen, inspect)
      invariant ips.token <==> old(ips.token) || SomeChange(old(ips.sources), seen, inspect)
    {
      var network := networks[i];
      assert Members(networks[..i + 1]) == Members(networks[..i]) + {network} by {
        assert networks[..i + 1] == networks[..i] + [network];
      }
      if network in seen {
        continue;
      }
      RefreshesMore(old(ips.sources), ips.sources, seen, inspect, network);
      FailedMore(failed, seen, inspect, network);
      var r := inspect(network);
      Refreshed(ips, DockerSource(network), r);
      seen := seen + {network};
      if r.Failed? {
        failed := failed + [network];
      }
    }
    assert networks[..|networks|] == networks;
  }
}
