/** The default gateway of an interface (defaultGateway in hostinfo.go). */
module HostInfo {
  import opened Addresses

  /** A route: the length of its destination mask, its gateway if it has one, its priority. */
  datatype Route = Route(maskLength: nat, gateway: Option<NetAddr>, priority: int)

  /** A default route with an IPv6 gateway. */
  predicate Eligible(r: Route) {
    r.maskLength == 0 && r.gateway.Some? && r.gateway.value.Unmap().V6?
  }

  /** The gateway of the first among the eligible routes with the lowest priority value. */
  method DefaultGateway(routes: seq<Route>) returns (gateway: NetAddr, ghost chosen: nat)
    ensures gateway.Invalid? <==> forall i :: 0 <= i < |routes| ==> !Eligible(routes[i])
    ensures !gateway.Invalid? ==>
              chosen < |routes| && Eligible(routes[chosen]) && gateway == routes[chosen].gateway.value.Unmap()
              && (forall i :: 0 <= i < |routes| && Eligible(routes[i]) ==>
                    routes[chosen].priority <= routes[i].priority)
              && (forall i :: 0 <= i < chosen && Eligible(routes[i]) ==>
                    routes[chosen].priority < routes[i].priority)
  {
    gateway, chosen := Invalid, 0;
    var best := 0x7fff_ffff_ffff_ffff;
    for n := 0 to |routes|
      invariant gateway.Invalid? <==> forall i :: 0 <= i < n ==> !Eligible(routes[i])
      invariant !gateway.Invalid? ==>
                  chosen < n && Eligible(routes[chosen]) && gateway == routes[chosen].gateway.value.Unmap()
                  && best == routes[chosen].priority
                  && (forall i :: 0 <= i < n && Eligible(routes[i]) ==> best <= routes[i].priority)
                  && (forall i :: 0 <= i < chosen && Eligible(routes[i]) ==> best < routes[i].priority)
    {
      var r := routes[n];
      if r.maskLength != 0 || r.gateway.None? {
        continue;
      }
      var candidate := r.gateway.value.Unmap();
      if !candidate.V6? {
        continue;
      }
      if !gateway.Invalid? && r.priority >= best {
        continue;
      }
      gateway, best, chosen := candidate, r.priority, n;
    }
  }
}
