/** The three commands in the fields of the namespace, the configuration and the previous result:
    what makes ADD stand aside, what it leaves behind when it does not, and which wrong value CHECK
    reports. */
module Commands {
  import opened Wrappers
  import opened Netns
  import opened Attach
  import opened Plugin
  import opened Lifecycle

  // ---- when the plugin stands aside

  /** An excluded or unlisted namespace, an IPv4 address anywhere in the previous result, or no IPv6
      address in it: ADD succeeds and touches nothing, whatever would fail, and CHECK succeeds.
      Without a previous result both fail. */
  lemma SkippedPodsAreLeftAlone(env: Env, n: Net, fault: Fault)
    ensures env.res.None? ==> Add(env, n, fault) == (n, false) && !Check(env, n)
    ensures env.res.Some? &&
            (|| env.namespace in env.conf.excluded
             || (env.conf.included != {} && env.namespace !in env.conf.included)
             || (exists i :: 0 <= i < |env.res.value| && env.res.value[i] == V4)
             || (forall i :: 0 <= i < |env.res.value| ==> !env.res.value[i].V6?))
            ==> Add(env, n, fault) == (n, true) && Check(env, n)
  {
    VerdictExactly(env);
  }

  /** An address on another interface than the loopback device, unless it is the configured address
      on the pod interface. */
  predicate ForeignAddress(env: Env, l: Link, a: Addr) {
    && !l.loopback && a.link == l.index && a.net.Some?
    && (l.name != env.ifName || a.net.value != env.conf.pod)
  }

  /** A default route, unless it leaves the pod interface through the configured gateway. */
  ghost predicate ForeignRoute(env: Env, n: Net, r: Route) {
    && (r.dst.None? || r.dst.value.ip == 0)
    && (r.gw != Some(env.conf.gateway) || forall l :: l in n.links && l.index == r.link ==> l.name != env.ifName)
  }

  /** ADD never touches a namespace with such an address, whatever would fail; it succeeds if it
      gets to see it. */
  lemma ForeignAddressStopsAdd(env: Env, n: Net, fault: Fault, l: Link, a: Addr)
    requires l in n.links && a in n.addrs && ForeignAddress(env, l, a)
    ensures Add(env, n, fault).0 == n
    ensures env.res.Some? && fault != InspectFault ==> Add(env, n, fault).1
  {
    assert Sees(l, a) && !IsOurAddr(l, a, env.ifName, SetupFor(env, 0));
  }

  lemma ForeignRouteStopsAdd(env: Env, n: Net, fault: Fault, r: Route)
    requires r in n.routes && ForeignRoute(env, n, r)
    ensures Add(env, n, fault).0 == n
    ensures env.res.Some? && fault != InspectFault ==> Add(env, n, fault).1
  {
    FindIndexSound(n.links, r.link);
    assert IsDefault(r) && !IsOurDefault(n, r, env.ifName, SetupFor(env, 0));
  }

  /** Nothing else counts as foreign. */
  lemma ForeignExactly(env: Env, n: Net)
    requires DistinctLinks(n)
    ensures State(n, env.ifName, SetupFor(env, 0)) == ForeignIpv4 <==>
            || (exists l, a :: l in n.links && a in n.addrs && ForeignAddress(env, l, a))
            || (exists r :: r in n.routes && ForeignRoute(env, n, r))
  {
    var s := SetupFor(env, 0);
    forall l, a | l in n.links && a in n.addrs
      ensures ForeignAddress(env, l, a) <==> Sees(l, a) && !IsOurAddr(l, a, env.ifName, s)
    {
    }
    forall r | r in n.routes
      ensures ForeignRoute(env, n, r) <==> IsDefault(r) && !IsOurDefault(n, r, env.ifName, s)
    {
      FindIndexSound(n.links, r.link);
    }
  }

  /** A namespace with such an address or route comes through any number of ADDs and CHECKs, failing
      or not, as it is. */
  lemma ForeignSurvives(env: Env, x: Life, ops: seq<Op>)
    requires DistinctLinks(x.net) && forall i :: 0 <= i < |ops| ==> !ops[i].DelOp?
    requires || (exists l, a :: l in x.net.links && a in x.net.addrs && ForeignAddress(env, l, a))
             || (exists r :: r in x.net.routes && ForeignRoute(env, x.net, r))
    ensures After(env, x, ops).net == x.net
  {
    ForeignExactly(env, x.net);
    AddLeavesForeignAlone(env, x, ops);
  }

  /** With no address but on the loopback device and no default route there is no IPv4, neither
      foreign nor ours. */
  lemma NoIpv4Seen(env: Env, n: Net)
    requires forall l, a :: l in n.links && a in n.addrs ==> l.loopback || a.link != l.index || a.net.None?
    requires forall r :: r in n.routes ==> r.dst.Some? && r.dst.value.ip != 0
    ensures State(n, env.ifName, SetupFor(env, 0)) == NoIpv4
  {
  }

  // ---- when it does not

  /** What ADD leaves in a namespace it had not touched: the pod's address, a permanent neighbour
      entry that gives the gateway the peer's hardware address, a route to the gateway and one
      through it, with room for the larger header, and the two programs on their hooks. */
  predicate AllInstalled(env: Env, n: Net, l: Link, peer: Mac, m: Net) {
    && m.links == n.links
    && m.addrs == n.addrs + [Addr(l.index, Some(env.conf.pod))]
    && m.neighs == n.neighs + [Neigh(l.index, env.conf.gateway, peer, true)]
    && m.routes == n.routes + [Route(l.index, Some(Prefix(env.conf.gateway, 32)), None, 0, 0),
                               Route(l.index, Some(Prefix(0, 0)), Some(env.conf.gateway), l.mtu - 20, 0)]
    && m.clsact == n.clsact + {l.index}
    && m.filters == n.filters + [Filter(l.index, EgressHook, true, "clat_egress", true, env.egressTag),
                                 Filter(l.index, IngressHook, true, "clat_ingress", true, env.ingressTag)]
  }

  /** ADD on a namespace it has not touched, when nothing tells it to stand aside: all of it
      without a failure; with one, nothing of it and the configured answer. */
  lemma AddExactly(env: Env, n: Net, fault: Fault)
    requires Unconfigured(env, n) && env.res.Some? && Verdict(env) == SkipNone
    requires State(n, env.ifName, SetupFor(env, 0)) != ForeignIpv4
    ensures var l := FindName(n.links, env.ifName);
            var (m, ok) := Add(env, n, fault);
            if fault == NoFault && l.Some? && l.value.veth && env.peer.Some?
            then ok && AllInstalled(env, n, l.value, env.peer.value, m)
            else m == n && ok == env.conf.failOpen
  {
    InstallIsAllOrNothing(env, n, fault);
    if fault != NoFault && fault != InspectFault {
      FailingInstallFails(env, n, fault);
    }
  }

  lemma FailingInstallFails(env: Env, n: Net, fault: Fault)
    requires fault != NoFault && fault != InspectFault
    ensures !Installed(env, n, fault).1
  {
  }

  // ---- CHECK and wrong values

  /** The pod interface has a neighbour entry, a default route or a program with the wrong value. */
  ghost predicate WrongValue(env: Env, n: Net, l: Link, peer: Mac) {
    || (exists x :: x in n.neighs && x.link == l.index && x.ip == env.conf.gateway && (x.mac != peer || !x.permanent))
    || (exists r :: r in n.routes && r.link == l.index && (r.dst.None? || r.dst.value.ip == 0)
                    && r.dst != Some(Prefix(env.conf.gateway, 32)) && r.mtu != l.mtu - 20)
    || (EgressMatch(n, l).Some? && EgressMatch(n, l).value.tag != env.egressTag)
    || (IngressMatch(n, l).Some? && IngressMatch(n, l).value.tag != env.ingressTag)
  }

  /** In any namespace, a piece of the plugin's with the wrong value fails CHECK, unless foreign
      state has taken over or all there is of the plugin's is the neighbour entry. */
  lemma CheckRejectsWrongValues(env: Env, n: Net)
    requires env.res.Some? && Verdict(env) == SkipNone && PodLink(env, n).Some? && env.peer.Some?
    requires State(n, env.ifName, SetupFor(env, 0)) != ForeignIpv4
    requires WrongValue(env, n, PodLink(env, n).value, env.peer.value)
    ensures Check(env, n) ==>
            && State(n, env.ifName, SetupFor(env, 0)) == NoIpv4
            && EgressMatch(n, PodLink(env, n).value) == None && IngressMatch(n, PodLink(env, n).value) == None
            && env.conf.failOpen
  {
    var l, s := PodLink(env, n).value, SetupFor(env, env.peer.value);
    if exists x :: x in n.neighs && !NeighOk(x, l, s) {
      assert !Ipv4Ok(n, l, s);
    } else if exists r :: r in n.routes && !DefaultOk(r, l, s) {
      assert !Ipv4Ok(n, l, s);
    } else {
      WrongTags(env, n, l, s);
    }
  }

  lemma WrongTags(env: Env, n: Net, l: Link, s: Setup)
    requires WrongValue(env, n, l, s.peer) && s == SetupFor(env, s.peer)
    requires (forall x :: x in n.neighs ==> NeighOk(x, l, s)) && (forall r :: r in n.routes ==> DefaultOk(r, l, s))
    ensures !FiltersOk(n, l, env.egressTag, env.ingressTag)
  {
  }

  /** The program CHECK takes for the plugin's: the last one on the hook that is a BPF filter with
      the plugin's name and direct action. */
  lemma {:induction false} LastMatchExactly(s: seq<Filter>, link: nat, hook: Hook, name: string)
    ensures match LastMatch(s, link, hook, name)
            case None =>
              forall i :: 0 <= i < |s| ==>
                !(s[i].link == link && s[i].hook == hook && s[i].bpf && s[i].name == name && s[i].direct)
            case Some(f) =>
              && f.link == link && f.hook == hook && f.bpf && f.name == name && f.direct
              && exists i :: 0 <= i < |s| && s[i] == f &&
                   forall j :: i < j < |s| ==>
                     !(s[j].link == link && s[j].hook == hook && s[j].bpf && s[j].name == name && s[j].direct)
  {
    if s != [] {
      var z := |s| - 1;
      if Matches(s[z], link, hook, name) {
        assert s[z] == s[z];
      } else {
        LastMatchExactly(s[..z], link, hook, name);
        var r := s[..z];
        assert forall i :: 0 <= i < z ==> r[i] == s[i];
      }
    }
  }

  /** An installed pod whose values may be wrong. */
  function Altered(env: Env, n: Net, l: Link, mac: Mac, permanent: bool, mtu: int, te: Tag, ti: Tag): Net {
    n.(addrs := n.addrs + [Addr(l.index, Some(env.conf.pod))],
       neighs := n.neighs + [Neigh(l.index, env.conf.gateway, mac, permanent)],
       routes := n.routes + [Route(l.index, Some(Prefix(env.conf.gateway, 32)), None, 0, 0),
                             Route(l.index, Some(Prefix(0, 0)), Some(env.conf.gateway), mtu, 0)],
       clsact := n.clsact + {l.index},
       filters := n.filters + [Filter(l.index, EgressHook, true, "clat_egress", true, te),
                               Filter(l.index, IngressHook, true, "clat_ingress", true, ti)])
  }

  /** CHECK on such a pod passes exactly when every value is the right one; a gateway of 0.0.0.0
      blinds it. */
  lemma CheckSeesEveryValue(env: Env, n: Net, mac: Mac, permanent: bool, mtu: int, te: Tag, ti: Tag)
    requires Unconfigured(env, n) && Installable(env, n)
    ensures var l := PodLink(env, n).value;
            Check(env, Altered(env, n, l, mac, permanent, mtu, te, ti)) <==>
            env.conf.gateway == 0
            || (mac == env.peer.value && permanent && mtu == l.mtu - 20 && te == env.egressTag && ti == env.ingressTag)
  {
    var l := PodLink(env, n).value;
    AlteredState(env, n, mac, permanent, mtu, te, ti);
    if env.conf.gateway != 0 {
      AlteredIpv4Ok(env, n, mac, permanent, mtu, te, ti);
    }
    AlteredFilters(env, n, mac, permanent, mtu, te, ti);
  }

  lemma AlteredState(env: Env, n: Net, mac: Mac, permanent: bool, mtu: int, te: Tag, ti: Tag)
    requires Unconfigured(env, n) && Installable(env, n)
    ensures State(Altered(env, n, PodLink(env, n).value, mac, permanent, mtu, te, ti), env.ifName, SetupFor(env, 0))
            == if env.conf.gateway == 0 then ForeignIpv4 else OurIpv4
  {
    PartialState(env, n, true, true, true, true, true, true);
    var p := Partial(env, n, true, true, true, true, true, true);
    SameState(p, Altered(env, n, PodLink(env, n).value, mac, permanent, mtu, te, ti), env.ifName, SetupFor(env, 0));
  }

  /** Only links, addresses and the destination, device and gateway of routes make up the state. */
  lemma SameState(m: Net, k: Net, ifName: string, s: Setup)
    requires k.links == m.links && k.addrs == m.addrs && |k.routes| == |m.routes|
    requires forall i :: 0 <= i < |m.routes| ==> k.routes[i] == m.routes[i].(mtu := k.routes[i].mtu)
    ensures State(k, ifName, s) == State(m, ifName, s)
  {
    StateOnlySees(m, k, ifName, s);
    StateOnlySees(k, m, ifName, s);
  }

  lemma StateOnlySees(m: Net, k: Net, ifName: string, s: Setup)
    requires k.links == m.links && k.addrs == m.addrs && |k.routes| == |m.routes|
    requires forall i :: 0 <= i < |m.routes| ==> k.routes[i] == m.routes[i].(mtu := k.routes[i].mtu)
    ensures HasForeign(m, ifName, s) ==> HasForeign(k, ifName, s)
    ensures HasOurs(m, ifName, s) ==> HasOurs(k, ifName, s)
  {
    forall r | r in m.routes
      ensures exists q :: q in k.routes && IsDefault(q) == IsDefault(r)
                          && IsOurDefault(k, q, ifName, s) == IsOurDefault(m, r, ifName, s)
    {
      var i :| 0 <= i < |m.routes| && m.routes[i] == r;
      assert k.routes[i] in k.routes;
    }
  }

  lemma AlteredIpv4Ok(env: Env, n: Net, mac: Mac, permanent: bool, mtu: int, te: Tag, ti: Tag)
    requires Unconfigured(env, n) && Installable(env, n) && env.conf.gateway != 0
    ensures var l := PodLink(env, n).value;
            Ipv4Ok(Altered(env, n, l, mac, permanent, mtu, te, ti), l, SetupFor(env, env.peer.value))
            <==> mac == env.peer.value && permanent && mtu == l.mtu - 20
  {
    var l, s := PodLink(env, n).value, SetupFor(env, env.peer.value);
    var m := Altered(env, n, l, mac, permanent, mtu, te, ti);
    var x, gw := Neigh(l.index, env.conf.gateway, mac, permanent), GatewayRoute(l, s);
    var def := Route(l.index, Some(Prefix(0, 0)), Some(env.conf.gateway), mtu, 0);
    NoIpv4NoDefaults(env, n);
    assert OurAddr(l, s) in m.addrs && x in m.neighs && gw in m.routes && def in m.routes;
    assert NeighOk(x, l, s) <==> mac == env.peer.value && permanent;
    assert DefaultOk(def, l, s) <==> mtu == l.mtu - 20;
    assert forall y :: y in m.neighs ==> y == x || NeighOk(y, l, s);
    assert forall r :: r in m.routes ==> r == def || DefaultOk(r, l, s);
  }

  lemma AlteredFilters(env: Env, n: Net, mac: Mac, permanent: bool, mtu: int, te: Tag, ti: Tag)
    requires Unconfigured(env, n) && Installable(env, n)
    ensures var l := PodLink(env, n).value;
            FiltersOk(Altered(env, n, l, mac, permanent, mtu, te, ti), l, env.egressTag, env.ingressTag)
            <==> te == env.egressTag && ti == env.ingressTag
  {
    var other := env.(egressTag := te, ingressTag := ti);
    PartialFilters(other, n, true, true, true, true, true, true);
    assert Partial(other, n, true, true, true, true, true, true).filters
        == Altered(env, n, PodLink(env, n).value, mac, permanent, mtu, te, ti).filters;
  }
}
