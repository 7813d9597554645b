/** The pod network namespace as the plugin sees it through netlink, and the IPv4 state the plugin
    puts there. Routes are those of the main table. */
module Netns {
  import opened Wrappers

  type Ip = nat
  type Mac = nat
  type Tag = nat

  datatype Prefix = Prefix(ip: Ip, bits: nat)
  datatype Link = Link(index: nat, name: string, loopback: bool, veth: bool, mtu: int)
  datatype Addr = Addr(link: nat, net: Option<Prefix>)
  datatype Neigh = Neigh(link: nat, ip: Ip, mac: Mac, permanent: bool)
  datatype Route = Route(link: nat, dst: Option<Prefix>, gw: Option<Ip>, mtu: int, metric: nat)
  datatype Hook = EgressHook | IngressHook
  datatype Filter = Filter(link: nat, hook: Hook, bpf: bool, name: string, direct: bool, tag: Tag)

  /** Everything in the namespace that matters here. */
  datatype Net = Net(links: seq<Link>, addrs: seq<Addr>, neighs: seq<Neigh>, routes: seq<Route>,
                     clsact: set<nat>, filters: seq<Filter>)

  /** The IPv4 state ADD installs. */
  datatype Setup = Setup(pod: Prefix, gateway: Ip, peer: Mac)

  /** The MTU of the IPv4 default route: room for the larger IPv6 header. */
  function RouteMtu(linkMtu: int): int {
    linkMtu - 20
  }

  function OurAddr(l: Link, s: Setup): Addr {
    Addr(l.index, Some(s.pod))
  }

  function OurNeigh(l: Link, s: Setup): Neigh {
    Neigh(l.index, s.gateway, s.peer, true)
  }

  function HostRoute(a: Ip): Prefix {
    Prefix(a, 32)
  }

  function GatewayRoute(l: Link, s: Setup): Route {
    Route(l.index, Some(HostRoute(s.gateway)), None, 0, 0)
  }

  function DefaultRoute(l: Link, s: Setup): Route {
    Route(l.index, Some(Prefix(0, 0)), Some(s.gateway), RouteMtu(l.mtu), 0)
  }

  /** How the plugin recognises a default route: no destination, or destination address 0. */
  predicate IsDefault(r: Route) {
    r.dst.None? || r.dst.value.ip == 0
  }

  // ---- netlink on lists

  function PutAddr(s: seq<Addr>, a: Addr): seq<Addr> {
    if a in s then s else s + [a]
  }

  function PutNeigh(s: seq<Neigh>, n: Neigh): (r: seq<Neigh>) {
    if s == [] then [n]
    else if s[0].link == n.link && s[0].ip == n.ip then [n] + s[1..]
    else [s[0]] + PutNeigh(s[1..], n)
  }

  /** Routes to the same destination with the same metric replace each other. */
  predicate SameRoute(x: Route, y: Route) {
    Dst(x) == Dst(y) && x.metric == y.metric
  }

  function Dst(r: Route): Prefix {
    if r.dst.None? then Prefix(0, 0) else r.dst.value
  }

  function PutRoute(s: seq<Route>, r: Route): seq<Route> {
    if s == [] then [r]
    else if SameRoute(s[0], r) then [r] + s[1..]
    else [s[0]] + PutRoute(s[1..], r)
  }

  function DropAddr(s: seq<Addr>, a: Addr): seq<Addr> {
    if s == [] then [] else if s[0] == a then DropAddr(s[1..], a) else [s[0]] + DropAddr(s[1..], a)
  }

  function DropNeigh(s: seq<Neigh>, link: nat, ip: Ip): seq<Neigh> {
    if s == [] then []
    else if s[0].link == link && s[0].ip == ip then DropNeigh(s[1..], link, ip)
    else [s[0]] + DropNeigh(s[1..], link, ip)
  }

  /** A delete names destination, device and gateway, and takes the first route that fits. */
  predicate Deletes(r: Route, x: Route) {
    Dst(x) == Dst(r) && x.link == r.link && x.gw == r.gw
  }

  function DropRoute(s: seq<Route>, r: Route): seq<Route> {
    if s == [] then [] else if Deletes(r, s[0]) then s[1..] else [s[0]] + DropRoute(s[1..], r)
  }

  // ---- the operations on the namespace, as values

  /** `ConfigureIPv4` stopped after `k` of its four steps. */
  function Configured(n: Net, l: Link, s: Setup, k: nat): Net {
    var n1 := if k >= 1 then n.(addrs := PutAddr(n.addrs, OurAddr(l, s))) else n;
    var n2 := if k >= 2 then n1.(neighs := PutNeigh(n1.neighs, OurNeigh(l, s))) else n1;
    var n3 := if k >= 3 then n2.(routes := PutRoute(n2.routes, GatewayRoute(l, s))) else n2;
    if k >= 4 then n3.(routes := PutRoute(n3.routes, DefaultRoute(l, s))) else n3
  }

  function Removed(n: Net, l: Link, s: Setup): Net {
    n.(routes := DropRoute(DropRoute(n.routes, DefaultRoute(l, s)), GatewayRoute(l, s)),
       neighs := DropNeigh(n.neighs, l.index, s.gateway),
       addrs := DropAddr(n.addrs, OurAddr(l, s)))
  }

  datatype Ipv4State = NoIpv4 | OurIpv4 | ForeignIpv4

  /** An address that ADD would have put there. */
  predicate IsOurAddr(l: Link, a: Addr, ifName: string, s: Setup) {
    l.name == ifName && a.net == Some(s.pod)
  }

  predicate Sees(l: Link, a: Addr) {
    !l.loopback && a.link == l.index && a.net.Some?
  }

  predicate IsOurDefault(n: Net, r: Route, ifName: string, s: Setup) {
    var l := FindIndex(n.links, r.link);
    l.Some? && l.value.name == ifName && r.gw == Some(s.gateway)
  }

  ghost predicate HasForeign(n: Net, ifName: string, s: Setup) {
    || (exists l, a :: l in n.links && a in n.addrs && Sees(l, a) && !IsOurAddr(l, a, ifName, s))
    || (exists r :: r in n.routes && IsDefault(r) && !IsOurDefault(n, r, ifName, s))
  }

  ghost predicate HasOurs(n: Net, ifName: string, s: Setup) {
    || (exists l, a :: l in n.links && a in n.addrs && Sees(l, a) && IsOurAddr(l, a, ifName, s))
    || (exists r :: r in n.routes && IsDefault(r) && IsOurDefault(n, r, ifName, s))
  }

  ghost function State(n: Net, ifName: string, s: Setup): Ipv4State {
    if HasForeign(n, ifName, s) then ForeignIpv4
    else if HasOurs(n, ifName, s) then OurIpv4
    else NoIpv4
  }

  function FindIndex(ls: seq<Link>, index: nat): Option<Link> {
    if ls == [] then None else if ls[0].index == index then Some(ls[0]) else FindIndex(ls[1..], index)
  }

  function FindName(ls: seq<Link>, name: string): Option<Link> {
    if ls == [] then None else if ls[0].name == name then Some(ls[0]) else FindName(ls[1..], name)
  }

  /** A neighbour entry for the gateway is the one ADD would install. */
  predicate NeighOk(x: Neigh, l: Link, s: Setup) {
    x.link == l.index && x.ip == s.gateway ==> x.permanent && x.mac == s.peer
  }

  predicate DefaultOk(r: Route, l: Link, s: Setup) {
    r.link == l.index && r.dst != Some(HostRoute(s.gateway)) && IsDefault(r)
    ==> r.gw == Some(s.gateway) && r.mtu == RouteMtu(l.mtu)
  }

  /** `CheckIPv4` finds nothing wrong. */
  ghost predicate Ipv4Ok(n: Net, l: Link, s: Setup) {
    && OurAddr(l, s) in n.addrs
    && (forall x :: x in n.neighs ==> NeighOk(x, l, s))
    && (exists x :: x in n.neighs && x.link == l.index && x.ip == s.gateway)
    && (forall r :: r in n.routes ==> DefaultOk(r, l, s))
    && (exists r :: r in n.routes && r.link == l.index && r.dst == Some(HostRoute(s.gateway)))
    && (exists r :: r in n.routes && r.link == l.index && r.dst != Some(HostRoute(s.gateway)) && IsDefault(r))
  }

  // ---- the namespace as the plugin mutates it

  /** The setup step that fails, if any. A failing step changes nothing. */
  datatype Fault =
    | NoFault
    | InspectFault
    | LinkFault
    | PeerFault
    | LoadFault
    | EnterFault
    | AddrFault
    | NeighFault
    | GatewayFault
    | DefaultFault
    | QdiscFault
    | EgressFault
    | IngressFault

  class NetNs {
    var links: seq<Link>
    var addrs: seq<Addr>
    var neighs: seq<Neigh>
    var routes: seq<Route>
    var clsact: set<nat>
    var filters: seq<Filter>

    ghost function Snapshot(): Net
      reads this
    {
      Net(links, addrs, neighs, routes, clsact, filters)
    }

    /** `ConfigureIPv4`: the steps before the failing one are done, the rest are not. */
    method ConfigureIPv4(l: Link, s: Setup, fault: Fault) returns (ok: bool)
      modifies this`addrs, this`neighs, this`routes
      ensures Snapshot() == Configured(old(Snapshot()), l, s, Ipv4Steps(fault))
      ensures ok <==> Ipv4Steps(fault) == 4
    {
      ok := false;
      if fault == AddrFault {
        return;
      }
      addrs := PutAddr(addrs, OurAddr(l, s));
      if fault == NeighFault {
        return;
      }
      neighs := PutNeigh(neighs, OurNeigh(l, s));
      if fault == GatewayFault {
        return;
      }
      routes := PutRoute(routes, GatewayRoute(l, s));
      if fault == DefaultFault {
        return;
      }
      routes := PutRoute(routes, DefaultRoute(l, s));
      ok := true;
    }

    /** `RemoveIPv4`: missing pieces are not an error. */
    method RemoveIPv4(l: Link, s: Setup)
      modifies this`addrs, this`neighs, this`routes
      ensures Snapshot() == Removed(old(Snapshot()), l, s)
    {
      routes := DropRoute(routes, DefaultRoute(l, s));
      routes := DropRoute(routes, GatewayRoute(l, s));
      neighs := DropNeigh(neighs, l.index, s.gateway);
      addrs := DropAddr(addrs, OurAddr(l, s));
    }

    /** `InspectIPv4`: every address on every non-loopback link, then every default route. */
    method InspectIPv4(ifName: string, s: Setup) returns (st: Ipv4State)
      ensures st == State(Snapshot(), ifName, s)
    {
      var ours, foreign := false, false;
      var i := 0;
      ghost var n := Snapshot();
      while i < |links|
        invariant 0 <= i <= |links|
        invariant foreign <==> exists l, a :: l in links[..i] && a in addrs && Sees(l, a) && !IsOurAddr(l, a, ifName, s)
        invariant ours <==> exists l, a :: l in links[..i] && a in addrs && Sees(l, a) && IsOurAddr(l, a, ifName, s)
      {
        var l := links[i];
        var f, o := InspectLink(l, ifName, s);
        assert links[..i + 1] == links[..i] + [l];
        ours, foreign := ours || o, foreign || f;
        i := i + 1;
      }
      assert links[..i] == links;
      var f, o := InspectRoutes(ifName, s);
      ours, foreign := ours || o, foreign || f;
      return if foreign then ForeignIpv4 else if ours then OurIpv4 else NoIpv4;
    }

    method InspectLink(l: Link, ifName: string, s: Setup) returns (foreign: bool, ours: bool)
      ensures foreign <==> exists a :: a in addrs && Sees(l, a) && !IsOurAddr(l, a, ifName, s)
      ensures ours <==> exists a :: a in addrs && Sees(l, a) && IsOurAddr(l, a, ifName, s)
    {
      foreign, ours := false, false;
      if l.loopback {
        return;
      }
      var j := 0;
      while j < |addrs|
        invariant 0 <= j <= |addrs|
        invariant foreign <==> exists a :: a in addrs[..j] && Sees(l, a) && !IsOurAddr(l, a, ifName, s)
        invariant ours <==> exists a :: a in addrs[..j] && Sees(l, a) && IsOurAddr(l, a, ifName, s)
      {
        var a := addrs[j];
        assert addrs[..j + 1] == addrs[..j] + [a];
        assert a in addrs[..j + 1];
        if a.link == l.index && a.net.Some? {
          assert Sees(l, a);
          if l.name == ifName && a.net.value == s.pod {
            assert IsOurAddr(l, a, ifName, s);
            ours := true;
          } else {
            foreign := true;
          }
        }
        j := j + 1;
      }
      assert addrs[..j] == addrs;
    }

    method InspectRoutes(ifName: string, s: Setup) returns (foreign: bool, ours: bool)
      ensures foreign <==> exists r :: r in routes && IsDefault(r) && !IsOurDefault(Snapshot(), r, ifName, s)
      ensures ours <==> exists r :: r in routes && IsDefault(r) && IsOurDefault(Snapshot(), r, ifName, s)
    {
      foreign, ours := false, false;
      ghost var n := Snapshot();
      var j := 0;
      while j < |routes|
        invariant 0 <= j <= |routes|
        invariant foreign <==> exists r :: r in routes[..j] && IsDefault(r) && !IsOurDefault(n, r, ifName, s)
        invariant ours <==> exists r :: r in routes[..j] && IsDefault(r) && IsOurDefault(n, r, ifName, s)
      {
        var r := routes[j];
        assert routes[..j + 1] == routes[..j] + [r];
        if IsDefault(r) {
          var link := FindIndex(links, r.link);
          if link.Some? && link.value.name == ifName && r.gw == Some(s.gateway) {
            ours := true;
          } else {
            foreign := true;
          }
        }
        j := j + 1;
      }
      assert routes[..j] == routes;
    }

    /** `CheckIPv4`. */
    method CheckIPv4(l: Link, s: Setup) returns (ok: bool)
      ensures ok <==> Ipv4Ok(Snapshot(), l, s)
    {
      var found := false;
      var i := 0;
      while i < |addrs|
        invariant 0 <= i <= |addrs|
        invariant found <==> OurAddr(l, s) in addrs[..i]
      {
        assert addrs[..i + 1] == addrs[..i] + [addrs[i]];
        if addrs[i].link == l.index && addrs[i].net == Some(s.pod) {
          found := true;
        }
        i := i + 1;
      }
      assert addrs[..i] == addrs;
      if !found {
        return false;
      }
      ok := CheckNeighs(l, s);
      if !ok {
        return;
      }
      ok := CheckRoutes(l, s);
    }

    method CheckNeighs(l: Link, s: Setup) returns (ok: bool)
      ensures ok <==> (forall x :: x in neighs ==> NeighOk(x, l, s))
                      && (exists x :: x in neighs && x.link == l.index && x.ip == s.gateway)
    {
      ok := false;
      var i := 0;
      while i < |neighs|
        invariant 0 <= i <= |neighs|
        invariant forall x :: x in neighs[..i] ==> NeighOk(x, l, s)
        invariant ok <==> exists x :: x in neighs[..i] && x.link == l.index && x.ip == s.gateway
      {
        var x := neighs[i];
        assert neighs[..i + 1] == neighs[..i] + [x];
        if x.link == l.index && x.ip == s.gateway {
          if !x.permanent || x.mac != s.peer {
            assert !NeighOk(x, l, s);
            return false;
          }
          ok := true;
        }
        i := i + 1;
      }
      assert neighs[..i] == neighs;
    }

    method CheckRoutes(l: Link, s: Setup) returns (ok: bool)
      ensures ok <==>
              && (forall r :: r in routes ==> DefaultOk(r, l, s))
              && (exists r :: r in routes && r.link == l.index && r.dst == Some(HostRoute(s.gateway)))
              && (exists r :: r in routes && r.link == l.index && r.dst != Some(HostRoute(s.gateway)) && IsDefault(r))
    {
      var haveGw, haveDefault := false, false;
      var i := 0;
      while i < |routes|
        invariant 0 <= i <= |routes|
        invariant forall r :: r in routes[..i] ==> DefaultOk(r, l, s)
        invariant haveGw <==> exists r :: r in routes[..i] && r.link == l.index && r.dst == Some(HostRoute(s.gateway))
        invariant haveDefault <==>
                  exists r :: r in routes[..i] && r.link == l.index && r.dst != Some(HostRoute(s.gateway)) && IsDefault(r)
      {
        var r := routes[i];
        assert routes[..i + 1] == routes[..i] + [r];
        if r.link == l.index {
          if r.dst == Some(HostRoute(s.gateway)) {
            haveGw := true;
          } else if IsDefault(r) {
            if r.gw != Some(s.gateway) || r.mtu != RouteMtu(l.mtu) {
              assert !DefaultOk(r, l, s);
              return false;
            }
            haveDefault := true;
          }
        }
        i := i + 1;
      }
      assert routes[..i] == routes;
      ok := haveGw && haveDefault;
    }
  }

  /** How many steps of `ConfigureIPv4` happen. */
  function Ipv4Steps(fault: Fault): nat {
    match fault
    case AddrFault => 0
    case NeighFault => 1
    case GatewayFault => 2
    case DefaultFault => 3
    case _ => 4
  }
}
