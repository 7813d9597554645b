/** Whole lives of a pod's namespace: any legal sequence of ADD, DEL and CHECK, with a failure at
    any setup step. */
module Lifecycle {
  import opened Wrappers
  import opened Netns
  import opened Attach
  import opened Plugin

  // ---- a namespace the plugin has not touched

  /** Link indexes and names are unique in a namespace, and a veth is not the loopback device. */
  predicate DistinctLinks(n: Net) {
    && (forall x, y :: x in n.links && y in n.links && (x.index == y.index || x.name == y.name) ==> x == y)
    && (forall x :: x in n.links && x.veth ==> !x.loopback)
  }

  /** Nothing is there that ADD would take for its own piece, replace, or DEL take away: not the
      address, no neighbour entry for the gateway and no route that `BareRoute` names, no qdisc or
      filter on the pod interface. `DelUndoesAddExactly` says that this is what it takes. */
  ghost predicate Bare(n: Net, l: Link, s: Setup) {
    && OurAddr(l, s) !in n.addrs
    && (forall x :: x in n.neighs ==> !(x.link == l.index && x.ip == s.gateway))
    && (forall r :: r in n.routes ==> BareRoute(r, l, s))
    && l.index !in n.clsact
    && (forall f :: f in n.filters ==> f.link != l.index)
  }

  /** Other routes to the gateway may exist: with another metric, on another device or through
      another hop. */
  predicate BareRoute(r: Route, l: Link, s: Setup) {
    !SameRoute(r, GatewayRoute(l, s)) && !Deletes(GatewayRoute(l, s), r) && !Deletes(DefaultRoute(l, s), r)
  }

  /** The plugin finds nothing of its own. */
  ghost predicate Unconfigured(env: Env, n: Net) {
    && DistinctLinks(n)
    && (PodLink(env, n).Some? ==>
          Bare(n, PodLink(env, n).value, SetupFor(env, 0)) && State(n, env.ifName, SetupFor(env, 0)) != OurIpv4)
  }

  /** The namespace with everything ADD installs and nothing else changed. */
  function Complete(n: Net, l: Link, s: Setup, te: Tag, ti: Tag): Net {
    n.(addrs := n.addrs + [OurAddr(l, s)],
       neighs := n.neighs + [OurNeigh(l, s)],
       routes := n.routes + [GatewayRoute(l, s), DefaultRoute(l, s)],
       clsact := n.clsact + {l.index},
       filters := n.filters + [OurFilter(l, EgressHook, te), OurFilter(l, IngressHook, ti)])
  }

  function CompleteFor(env: Env, n: Net): Net
    requires PodLink(env, n).Some? && env.peer.Some?
  {
    Complete(n, PodLink(env, n).value, SetupFor(env, env.peer.value), env.egressTag, env.ingressTag)
  }

  // ---- putting and dropping

  lemma {:induction false} PutNeighAppends(s: seq<Neigh>, n: Neigh)
    requires forall x :: x in s ==> !(x.link == n.link && x.ip == n.ip)
    ensures PutNeigh(s, n) == s + [n]
  {
    if s != [] {
      assert s[0] in s;
      PutNeighAppends(s[1..], n);
      assert s == [s[0]] + s[1..];
    }
  }

  lemma {:induction false} PutRouteAppends(s: seq<Route>, r: Route)
    requires forall x :: x in s ==> !SameRoute(x, r)
    ensures PutRoute(s, r) == s + [r]
  {
    if s != [] {
      assert s[0] in s;
      PutRouteAppends(s[1..], r);
      assert s == [s[0]] + s[1..];
    }
  }

  lemma {:induction false} PutFilterAppends(s: seq<Filter>, f: Filter)
    requires forall x :: x in s ==> !(x.link == f.link && x.hook == f.hook)
    ensures PutFilter(s, f) == s + [f]
  {
    if s != [] {
      assert s[0] in s;
      PutFilterAppends(s[1..], f);
      assert s == [s[0]] + s[1..];
    }
  }

  lemma {:induction false} DropAddrKeeps(s: seq<Addr>, a: Addr, t: seq<Addr>)
    requires a !in s
    ensures DropAddr(s + t, a) == s + DropAddr(t, a)
  {
    if s == [] {
      assert s + t == t;
    } else {
      assert (s + t)[1..] == s[1..] + t;
      DropAddrKeeps(s[1..], a, t);
    }
  }

  lemma {:induction false} DropNeighKeeps(s: seq<Neigh>, link: nat, ip: Ip, t: seq<Neigh>)
    requires forall x :: x in s ==> !(x.link == link && x.ip == ip)
    ensures DropNeigh(s + t, link, ip) == s + DropNeigh(t, link, ip)
  {
    if s == [] {
      assert s + t == t;
    } else {
      assert s[0] in s && (s + t)[1..] == s[1..] + t;
      DropNeighKeeps(s[1..], link, ip, t);
    }
  }

  lemma {:induction false} DropRouteKeeps(s: seq<Route>, r: Route, t: seq<Route>)
    requires forall x :: x in s ==> !Deletes(r, x)
    ensures DropRoute(s + t, r) == s + DropRoute(t, r)
  {
    if s == [] {
      assert s + t == t;
    } else {
      assert s[0] in s && (s + t)[1..] == s[1..] + t;
      DropRouteKeeps(s[1..], r, t);
    }
  }

  lemma {:induction false} OffLinkKeeps(s: seq<Filter>, link: nat, t: seq<Filter>)
    requires forall x :: x in s ==> x.link != link
    ensures OffLink(s + t, link) == s + OffLink(t, link)
  {
    if s == [] {
      assert s + t == t;
    } else {
      assert s[0] in s && (s + t)[1..] == s[1..] + t;
      OffLinkKeeps(s[1..], link, t);
    }
  }

  lemma {:induction false} OffLinkAll(s: seq<Filter>, link: nat)
    requires forall x :: x in s ==> x.link == link
    ensures OffLink(s, link) == []
  {
    if s != [] {
      assert s[0] in s;
      OffLinkAll(s[1..], link);
    }
  }

  // ---- setting up and taking down

  /** Setup replaces no default route. */
  ghost predicate DefaultFree(n: Net, l: Link, s: Setup) {
    forall r :: r in n.routes ==> !SameRoute(r, DefaultRoute(l, s))
  }

  /** `ConfigureIPv4` on a bare namespace only adds. */
  lemma ConfiguredAppends(n: Net, l: Link, s: Setup, k: nat)
    requires Bare(n, l, s) && DefaultFree(n, l, s) && k <= 4
    ensures Configured(n, l, s, k) ==
            n.(addrs := n.addrs + (if k >= 1 then [OurAddr(l, s)] else []),
               neighs := n.neighs + (if k >= 2 then [OurNeigh(l, s)] else []),
               routes := n.routes + (if k >= 3 then [GatewayRoute(l, s)] else [])
                         + (if k >= 4 then [DefaultRoute(l, s)] else []))
  {
    PutNeighAppends(n.neighs, OurNeigh(l, s));
    forall x | x in n.routes
      ensures !SameRoute(x, GatewayRoute(l, s)) && !SameRoute(x, DefaultRoute(l, s))
    {
      assert BareRoute(x, l, s);
    }
    PutRouteAppends(n.routes, GatewayRoute(l, s));
    PutRouteAppends(n.routes + [GatewayRoute(l, s)], DefaultRoute(l, s));
  }

  /** `RemoveIPv4` takes away exactly what was added, whatever the pieces that made it. */
  lemma RemovedRestores(n: Net, l: Link, s: Setup, peer: Mac, a: bool, b: bool, c: bool, d: bool, m: Net)
    requires Bare(n, l, s)
    requires m == n.(addrs := n.addrs + (if a then [OurAddr(l, s)] else []),
                     neighs := n.neighs + (if b then [OurNeigh(l, s.(peer := peer))] else []),
                     routes := n.routes + (if c then [GatewayRoute(l, s)] else [])
                               + (if d then [DefaultRoute(l, s)] else []))
    ensures Removed(m, l, s) == n
  {
    DropAddrKeeps(n.addrs, OurAddr(l, s), if a then [OurAddr(l, s)] else []);
    DropNeighKeeps(n.neighs, l.index, s.gateway, if b then [OurNeigh(l, s.(peer := peer))] else []);
    RoutesRestored(n.routes, l, s, c, d);
  }

  lemma RoutesRestored(rs: seq<Route>, l: Link, s: Setup, c: bool, d: bool)
    requires forall r :: r in rs ==> BareRoute(r, l, s)
    ensures var g := if c then [GatewayRoute(l, s)] else [];
            var e := if d then [DefaultRoute(l, s)] else [];
            DropRoute(DropRoute(rs + g + e, DefaultRoute(l, s)), GatewayRoute(l, s)) == rs
  {
    var gw, def := GatewayRoute(l, s), DefaultRoute(l, s);
    var g := if c then [gw] else [];
    var e := if d then [def] else [];
    forall x | x in rs
      ensures !Deletes(gw, x) && !Deletes(def, x)
    {
      assert BareRoute(x, l, s);
    }
    assert !Deletes(def, gw);
    DropRouteKeeps(rs + g, def, e);
    assert DropRoute(e, def) == [];
    assert rs + g + [] == rs + g;
    DropRouteKeeps(rs, gw, g);
    assert DropRoute(g, gw) == [];
    assert rs + [] == rs;
  }

  lemma AttachedAppends(n: Net, l: Link, te: Tag, ti: Tag, k: nat)
    requires (forall f :: f in n.filters ==> f.link != l.index) && k <= 3
    ensures Attached(n, l, te, ti, k) ==
            n.(clsact := if k >= 1 then n.clsact + {l.index} else n.clsact,
               filters := n.filters + (if k >= 2 then [OurFilter(l, EgressHook, te)] else [])
                          + (if k >= 3 then [OurFilter(l, IngressHook, ti)] else []))
  {
    PutFilterAppends(n.filters, OurFilter(l, EgressHook, te));
    PutFilterAppends(n.filters + [OurFilter(l, EgressHook, te)], OurFilter(l, IngressHook, ti));
  }

  lemma DetachedRestores(n: Net, l: Link, te: Tag, ti: Tag, k: nat)
    requires (forall f :: f in n.filters ==> f.link != l.index) && l.index !in n.clsact && k <= 3
    ensures Detached(Attached(n, l, te, ti, k), l) == n
  {
    AttachedAppends(n, l, te, ti, k);
    var e := if k >= 2 then [OurFilter(l, EgressHook, te)] else [];
    var g := if k >= 3 then [OurFilter(l, IngressHook, ti)] else [];
    OffLinkKeeps(n.filters, l.index, e + g);
    assert n.filters + e + g == n.filters + (e + g);
    OffLinkAll(e + g, l.index);
    assert n.clsact + {l.index} - {l.index} == n.clsact;
  }

  lemma BareAnyPeer(n: Net, l: Link, s: Setup, peer: Mac)
    requires Bare(n, l, s)
    ensures Bare(n, l, s.(peer := peer))
  {
    forall r | r in n.routes
      ensures BareRoute(r, l, s.(peer := peer))
    {
      assert BareRoute(r, l, s);
    }
  }

  lemma NoIpv4NoDefaults(env: Env, n: Net)
    requires State(n, env.ifName, SetupFor(env, 0)) != ForeignIpv4 && Unconfigured(env, n) && PodLink(env, n).Some?
    ensures forall r :: r in n.routes ==> !IsDefault(r)
    ensures forall k, x :: k in n.links && x in n.addrs ==> !Sees(k, x)
  {
  }

  /** Without foreign state every default route is one DEL would take. */
  lemma NoDefaultClash(env: Env, n: Net, s: Setup)
    requires DistinctLinks(n) && PodLink(env, n).Some? && s.gateway == env.conf.gateway
    requires State(n, env.ifName, SetupFor(env, 0)) != ForeignIpv4 && Bare(n, PodLink(env, n).value, s)
    ensures DefaultFree(n, PodLink(env, n).value, s)
  {
    var l := PodLink(env, n).value;
    forall r | r in n.routes
      ensures !SameRoute(r, DefaultRoute(l, s))
    {
      assert BareRoute(r, l, s);
      if IsDefault(r) {
        assert IsOurDefault(n, r, env.ifName, SetupFor(env, 0));
        FoundLinks(env, n, r.link);
      }
    }
  }

  /** A link found by index that bears the pod interface's name is the pod interface. */
  lemma FoundLinks(env: Env, n: Net, index: nat)
    requires FindIndex(n.links, index).Some? && FindIndex(n.links, index).value.name == env.ifName
    requires DistinctLinks(n)
    ensures PodLink(env, n) == FindIndex(n.links, index) && PodLink(env, n).value.index == index
  {
    FindIndexSound(n.links, index);
    FindNameSound(n.links, env.ifName);
  }

  lemma {:induction false} FindIndexSound(ls: seq<Link>, index: nat)
    ensures FindIndex(ls, index).Some? ==> FindIndex(ls, index).value in ls && FindIndex(ls, index).value.index == index
    ensures FindIndex(ls, index).None? ==> forall x :: x in ls ==> x.index != index
  {
    if ls != [] {
      assert ls == [ls[0]] + ls[1..];
      FindIndexSound(ls[1..], index);
    }
  }

  lemma {:induction false} FindNameSound(ls: seq<Link>, name: string)
    ensures FindName(ls, name).Some? ==> FindName(ls, name).value in ls && FindName(ls, name).value.name == name
    ensures FindName(ls, name).None? ==> forall x :: x in ls ==> x.name != name
  {
    if ls != [] {
      assert ls == [ls[0]] + ls[1..];
      FindNameSound(ls[1..], name);
    }
  }

  // ---- one ADD, one DEL

  /** ADD would go ahead: nothing tells it to skip and nothing lasting is in its way. */
  ghost predicate Installable(env: Env, n: Net) {
    && env.res.Some? && Verdict(env) == SkipNone
    && State(n, env.ifName, SetupFor(env, 0)) != ForeignIpv4
    && PodLink(env, n).Some? && PodLink(env, n).value.veth && env.peer.Some?
  }

  lemma InstallIsAllOrNothing(env: Env, n: Net, fault: Fault)
    requires DistinctLinks(n) && State(n, env.ifName, SetupFor(env, 0)) != ForeignIpv4
    requires PodLink(env, n).Some? ==> Bare(n, PodLink(env, n).value, SetupFor(env, 0))
    ensures Installed(env, n, fault) == (n, false) ||
            (PodLink(env, n).Some? && PodLink(env, n).value.veth && env.peer.Some?
             && Installed(env, n, fault) == (CompleteFor(env, n), true))
    ensures PodLink(env, n).Some? && PodLink(env, n).value.veth && env.peer.Some? && fault == NoFault
            ==> Installed(env, n, fault) == (CompleteFor(env, n), true)
  {
    if PodLink(env, n).Some? && env.peer.Some? {
      var l, s, peer := PodLink(env, n).value, SetupFor(env, env.peer.value), env.peer.value;
      BareAnyPeer(n, l, SetupFor(env, 0), peer);
      NoDefaultClash(env, n, s);
      var k, j := Ipv4Steps(fault), AttachSteps(fault);
      ConfiguredAppends(n, l, s, k);
      RemovedRestores(n, l, s, peer, k >= 1, k >= 2, k >= 3, k >= 4, Configured(n, l, s, k));
      AttachUndone(n, l, s, env.egressTag, env.ingressTag, j);
    }
  }

  lemma AttachUndone(n: Net, l: Link, s: Setup, te: Tag, ti: Tag, j: nat)
    requires Bare(n, l, s) && DefaultFree(n, l, s) && j <= 3
    ensures var n1 := Configured(n, l, s, 4);
            && Removed(Detached(Attached(n1, l, te, ti, j), l), l, s) == n
            && (j == 3 ==> Attached(n1, l, te, ti, j) == Complete(n, l, s, te, ti))
  {
    var n1 := Configured(n, l, s, 4);
    ConfiguredAppends(n, l, s, 4);
    DetachedRestores(n1, l, te, ti, j);
    AttachedAppends(n1, l, te, ti, j);
    RemovedRestores(n, l, s, s.peer, true, true, true, true, n1);
    assert n.routes + [GatewayRoute(l, s)] + [DefaultRoute(l, s)] == n.routes + [GatewayRoute(l, s), DefaultRoute(l, s)];
    assert n.filters + [OurFilter(l, EgressHook, te)] + [OurFilter(l, IngressHook, ti)]
        == n.filters + [OurFilter(l, EgressHook, te), OurFilter(l, IngressHook, ti)];
  }

  /** Whatever step fails, ADD leaves the namespace as it was or complete, and complete only when
      it reports success. Where it succeeds without installing, it was told to skip, found foreign
      state or failed open. */
  lemma AddIsAllOrNothing(env: Env, n: Net, fault: Fault)
    requires Unconfigured(env, n)
    ensures var (m, ok) := Add(env, n, fault);
            || (m == n && (ok ==> env.res.Some?
                                  && (Verdict(env) != SkipNone || env.conf.failOpen
                                      || State(n, env.ifName, SetupFor(env, 0)) == ForeignIpv4)))
            || (ok && Installable(env, n) && m == CompleteFor(env, n))
  {
    if State(n, env.ifName, SetupFor(env, 0)) != ForeignIpv4 {
      InstallIsAllOrNothing(env, n, fault);
    }
  }

  lemma DelRestoresBare(env: Env, n: Net)
    requires Unconfigured(env, n)
    ensures Del(env, n) == n
  {
    if PodLink(env, n).Some? {
      var l, s := PodLink(env, n).value, SetupFor(env, 0);
      assert n == n.(addrs := n.addrs + [], neighs := n.neighs + [], routes := n.routes + [] + []);
      RemovedRestores(n, l, s, 0, false, false, false, false, n);
    }
  }

  lemma DelRestoresComplete(env: Env, n: Net)
    requires PodLink(env, n).Some? && env.peer.Some? && Bare(n, PodLink(env, n).value, SetupFor(env, 0))
    ensures Del(env, CompleteFor(env, n)) == n
  {
    var l, s, s0 := PodLink(env, n).value, SetupFor(env, env.peer.value), SetupFor(env, 0);
    var n1 := n.(addrs := n.addrs + [OurAddr(l, s)], neighs := n.neighs + [OurNeigh(l, s)],
                 routes := n.routes + [GatewayRoute(l, s)] + [DefaultRoute(l, s)]);
    AttachedAppends(n1, l, env.egressTag, env.ingressTag, 3);
    DetachedRestores(n1, l, env.egressTag, env.ingressTag, 3);
    assert n.routes + [GatewayRoute(l, s)] + [DefaultRoute(l, s)] == n.routes + [GatewayRoute(l, s), DefaultRoute(l, s)];
    var te, ti := OurFilter(l, EgressHook, env.egressTag), OurFilter(l, IngressHook, env.ingressTag);
    assert n.filters + [te] + [ti] == n.filters + [te, ti];
    assert CompleteFor(env, n) == Attached(n1, l, env.egressTag, env.ingressTag, 3);
    RemovedRestores(n, l, s0, env.peer.value, true, true, true, true, n1);
  }

  // ---- runs

  datatype Op = AddOp(fault: Fault) | DelOp | CheckOp

  /** The namespace, and whether the last ADD succeeded and no DEL followed. */
  datatype Life = Life(net: Net, added: bool)

  ghost function Next(env: Env, x: Life, op: Op): Life {
    match op
    case AddOp(fault) => var (m, ok) := Add(env, x.net, fault); Life(m, ok)
    case DelOp => Life(Del(env, x.net), false)
    case CheckOp => x
  }

  ghost function After(env: Env, x: Life, ops: seq<Op>): Life
    decreases |ops|
  {
    if ops == [] then x else After(env, Next(env, x, ops[0]), ops[1..])
  }

  /** CNI does not repeat a successful ADD without a DEL. */
  ghost predicate Legal(env: Env, x: Life, ops: seq<Op>)
    decreases |ops|
  {
    ops == [] || ((ops[0].AddOp? ==> !x.added) && Legal(env, Next(env, x, ops[0]), ops[1..]))
  }

  /** Nothing of the plugin's, or all of it; and if an ADD succeeded without installing, why. */
  ghost predicate Sound(env: Env, n: Net, x: Life) {
    || (x.net == n && (x.added ==> env.res.Some?
                                   && (Verdict(env) != SkipNone || env.conf.failOpen
                                       || State(n, env.ifName, SetupFor(env, 0)) == ForeignIpv4)))
    || (x.added && Installable(env, n) && x.net == CompleteFor(env, n))
  }

  lemma StepKeepsSound(env: Env, n: Net, x: Life, op: Op)
    requires Unconfigured(env, n) && Sound(env, n, x) && (op.AddOp? ==> !x.added)
    ensures Sound(env, n, Next(env, x, op))
    ensures op.DelOp? ==> Next(env, x, op).net == n
  {
    match op
    case AddOp(fault) => AddIsAllOrNothing(env, n, fault);
    case DelOp =>
      DelRestoresBare(env, n);
      if x.net != n {
        DelRestoresComplete(env, n);
      }
    case CheckOp =>
  }

  lemma {:induction false} RunStaysSound(env: Env, n: Net, x: Life, ops: seq<Op>)
    requires Unconfigured(env, n) && Sound(env, n, x) && Legal(env, x, ops)
    ensures Sound(env, n, After(env, x, ops))
    decreases |ops|
  {
    if ops != [] {
      StepKeepsSound(env, n, x, ops[0]);
      RunStaysSound(env, n, Next(env, x, ops[0]), ops[1..]);
    }
  }

  /** A namespace that holds foreign IPv4 state, whatever else it holds, survives any number of ADDs
      and CHECKs, legal or not and failing or not, until a DEL. */
  lemma {:induction false} AddLeavesForeignAlone(env: Env, x: Life, ops: seq<Op>)
    requires State(x.net, env.ifName, SetupFor(env, 0)) == ForeignIpv4
    requires forall i :: 0 <= i < |ops| ==> !ops[i].DelOp?
    ensures After(env, x, ops).net == x.net
    decreases |ops|
  {
    if ops != [] {
      AddLeavesForeignAlone(env, Next(env, x, ops[0]), ops[1..]);
    }
  }

  /** Over every legal run from a namespace the plugin has not touched, with a failure at any setup
      step of any ADD, the namespace holds none of the plugin's state or all of it, and all of it
      only after a successful ADD. Foreign state keeps it untouched, and a DEL brings back the
      namespace as it was before the first ADD. */
  lemma LifecycleSafety(env: Env, n: Net, ops: seq<Op>)
    requires Unconfigured(env, n) && Legal(env, Life(n, false), ops)
    ensures var x := After(env, Life(n, false), ops);
            && (x.net == n || (x.added && Installable(env, n) && x.net == CompleteFor(env, n)))
            && (State(n, env.ifName, SetupFor(env, 0)) == ForeignIpv4 ==> x.net == n)
            && Del(env, x.net) == n && Del(env, Del(env, x.net)) == Del(env, x.net)
  {
    RunStaysSound(env, n, Life(n, false), ops);
    StepKeepsSound(env, n, After(env, Life(n, false), ops), DelOp);
    DelRestoresBare(env, n);
  }

  // ---- CHECK

  /** The namespace with some of the plugin's pieces. */
  function Partial(env: Env, n: Net, a: bool, b: bool, c: bool, d: bool, e: bool, g: bool): Net
    requires PodLink(env, n).Some? && env.peer.Some?
  {
    var l, s := PodLink(env, n).value, SetupFor(env, env.peer.value);
    n.(addrs := n.addrs + (if a then [OurAddr(l, s)] else []),
       neighs := n.neighs + (if b then [OurNeigh(l, s)] else []),
       routes := n.routes + (if c then [GatewayRoute(l, s)] else []) + (if d then [DefaultRoute(l, s)] else []),
       clsact := n.clsact + {l.index},
       filters := n.filters + (if e then [OurFilter(l, EgressHook, env.egressTag)] else [])
                  + (if g then [OurFilter(l, IngressHook, env.ingressTag)] else []))
  }

  lemma PartialComplete(env: Env, n: Net)
    requires PodLink(env, n).Some? && env.peer.Some?
    ensures Partial(env, n, true, true, true, true, true, true) == CompleteFor(env, n)
  {
    var l, s := PodLink(env, n).value, SetupFor(env, env.peer.value);
    assert n.routes + [GatewayRoute(l, s)] + [DefaultRoute(l, s)] == n.routes + [GatewayRoute(l, s), DefaultRoute(l, s)];
    var te, ti := OurFilter(l, EgressHook, env.egressTag), OurFilter(l, IngressHook, env.ingressTag);
    assert n.filters + [te] + [ti] == n.filters + [te, ti];
  }

  lemma PodLinkIsUnique(env: Env, n: Net)
    requires DistinctLinks(n) && PodLink(env, n).Some?
    ensures var l := PodLink(env, n).value;
            l in n.links && l.name == env.ifName && FindIndex(n.links, l.index) == Some(l)
  {
    FindNameSound(n.links, env.ifName);
    FindIndexSound(n.links, PodLink(env, n).value.index);
  }

  /** The pieces are recognised as ours, unless the gateway is 0.0.0.0: then the route to it looks
      like a foreign default route. */
  lemma PartialForeign(env: Env, n: Net, a: bool, b: bool, c: bool, d: bool, e: bool, g: bool)
    requires Unconfigured(env, n) && Installable(env, n)
    ensures HasForeign(Partial(env, n, a, b, c, d, e, g), env.ifName, SetupFor(env, 0))
            <==> c && env.conf.gateway == 0
  {
    var m := Partial(env, n, a, b, c, d, e, g);
    var l, s, s0 := PodLink(env, n).value, SetupFor(env, env.peer.value), SetupFor(env, 0);
    PodLinkIsUnique(env, n);
    NoIpv4NoDefaults(env, n);
    assert !(exists k, x :: k in m.links && x in m.addrs && Sees(k, x) && !IsOurAddr(k, x, env.ifName, s0)) by {
      forall k, x | k in m.links && x in m.addrs && Sees(k, x)
        ensures IsOurAddr(k, x, env.ifName, s0)
      {
        assert x == OurAddr(l, s) && k == l;
      }
    }
    forall r | r in m.routes
      ensures IsDefault(r) && !IsOurDefault(m, r, env.ifName, s0) <==> r == GatewayRoute(l, s) && env.conf.gateway == 0
    {
      if r in n.routes {
        assert BareRoute(r, l, s0);
      } else {
        assert r == GatewayRoute(l, s) || r == DefaultRoute(l, s);
      }
    }
    if c {
      assert GatewayRoute(l, s) in m.routes;
    } else {
      forall r | r in m.routes
        ensures r != GatewayRoute(l, s)
      {
        if r in n.routes {
          assert BareRoute(r, l, s0);
        } else {
          assert r == DefaultRoute(l, s);
        }
      }
    }
  }

  lemma PartialOurs(env: Env, n: Net, a: bool, b: bool, c: bool, d: bool, e: bool, g: bool)
    requires Unconfigured(env, n) && Installable(env, n)
    ensures HasOurs(Partial(env, n, a, b, c, d, e, g), env.ifName, SetupFor(env, 0)) <==> a || d
  {
    var m := Partial(env, n, a, b, c, d, e, g);
    var l, s, s0 := PodLink(env, n).value, SetupFor(env, env.peer.value), SetupFor(env, 0);
    PodLinkIsUnique(env, n);
    NoIpv4NoDefaults(env, n);
    if a {
      assert l in m.links && OurAddr(l, s) in m.addrs && Sees(l, OurAddr(l, s)) && IsOurAddr(l, OurAddr(l, s), env.ifName, s0);
    } else {
      assert m.addrs == n.addrs;
    }
    if d {
      assert DefaultRoute(l, s) in m.routes && IsDefault(DefaultRoute(l, s)) && IsOurDefault(m, DefaultRoute(l, s), env.ifName, s0);
    } else {
      forall r | r in m.routes
        ensures !(IsDefault(r) && IsOurDefault(m, r, env.ifName, s0))
      {
        if r !in n.routes {
          assert r == GatewayRoute(l, s);
        }
      }
    }
  }

  lemma PartialState(env: Env, n: Net, a: bool, b: bool, c: bool, d: bool, e: bool, g: bool)
    requires Unconfigured(env, n) && Installable(env, n)
    ensures State(Partial(env, n, a, b, c, d, e, g), env.ifName, SetupFor(env, 0))
            == if c && env.conf.gateway == 0 then ForeignIpv4 else if a || d then OurIpv4 else NoIpv4
  {
    PartialForeign(env, n, a, b, c, d, e, g);
    PartialOurs(env, n, a, b, c, d, e, g);
  }

  /** Some other route to the gateway leaves through the pod interface. */
  ghost predicate RoutesGateway(n: Net, l: Link, s: Setup) {
    exists r :: r in n.routes && r.link == l.index && r.dst == Some(HostRoute(s.gateway))
  }

  lemma PartialIpv4Ok(env: Env, n: Net, a: bool, b: bool, c: bool, d: bool, e: bool, g: bool)
    requires Unconfigured(env, n) && Installable(env, n)
    ensures Ipv4Ok(Partial(env, n, a, b, c, d, e, g), PodLink(env, n).value, SetupFor(env, env.peer.value))
            <==> a && b && (c || RoutesGateway(n, PodLink(env, n).value, SetupFor(env, 0))) && d
  {
    var m := Partial(env, n, a, b, c, d, e, g);
    var l, s, s0 := PodLink(env, n).value, SetupFor(env, env.peer.value), SetupFor(env, 0);
    NoIpv4NoDefaults(env, n);
    if RoutesGateway(n, l, s0) {
      var r :| r in n.routes && r.link == l.index && r.dst == Some(HostRoute(s.gateway));
      assert r in m.routes;
    }
    assert OurAddr(l, s) in m.addrs <==> a;
    if b {
      assert OurNeigh(l, s) in m.neighs;
    }
    if c {
      assert GatewayRoute(l, s) in m.routes;
    }
    if d {
      assert DefaultRoute(l, s) in m.routes;
    }
    assert forall r :: r in m.routes ==> r in n.routes || r == GatewayRoute(l, s) || r == DefaultRoute(l, s);
    assert !c ==> forall r :: r in m.routes ==> r in n.routes || r == DefaultRoute(l, s);
    assert !d ==> forall r :: r in m.routes ==> r in n.routes || r == GatewayRoute(l, s);
    assert forall r :: r in m.routes ==> DefaultOk(r, l, s);
  }

  lemma {:induction false} LastMatchNone(s: seq<Filter>, link: nat, hook: Hook, name: string)
    requires forall f :: f in s ==> f.link != link
    ensures LastMatch(s, link, hook, name) == None
  {
    if s != [] {
      assert s[|s| - 1] in s;
      LastMatchNone(s[..|s| - 1], link, hook, name);
    }
  }

  lemma LastMatchSnoc(s: seq<Filter>, f: Filter, link: nat, hook: Hook, name: string)
    ensures LastMatch(s + [f], link, hook, name)
            == if Matches(f, link, hook, name) then Some(f) else LastMatch(s, link, hook, name)
  {
    assert (s + [f])[..|s|] == s;
  }

  lemma PartialFilters(env: Env, n: Net, a: bool, b: bool, c: bool, d: bool, e: bool, g: bool)
    requires Unconfigured(env, n) && Installable(env, n)
    ensures var m, l := Partial(env, n, a, b, c, d, e, g), PodLink(env, n).value;
            && EgressMatch(m, l) == (if e then Some(OurFilter(l, EgressHook, env.egressTag)) else None)
            && IngressMatch(m, l) == (if g then Some(OurFilter(l, IngressHook, env.ingressTag)) else None)
  {
    var l := PodLink(env, n).value;
    var te, ti := OurFilter(l, EgressHook, env.egressTag), OurFilter(l, IngressHook, env.ingressTag);
    var s1 := n.filters + (if e then [te] else []);
    LastMatchNone(n.filters, l.index, EgressHook, EGRESS_NAME);
    LastMatchNone(n.filters, l.index, IngressHook, INGRESS_NAME);
    LastMatchSnoc(n.filters, te, l.index, EgressHook, EGRESS_NAME);
    LastMatchSnoc(n.filters, te, l.index, IngressHook, INGRESS_NAME);
    LastMatchSnoc(s1, ti, l.index, EgressHook, EGRESS_NAME);
    LastMatchSnoc(s1, ti, l.index, IngressHook, INGRESS_NAME);
    assert n.filters + [] == n.filters && s1 + [] == s1;
  }

  /** CHECK on any part of an installed pod: it passes exactly when every piece is there; when no
      address, default route or filter is left it is up to fail-open; and a gateway of 0.0.0.0
      blinds it as long as the route to the gateway is there. Another route to the gateway on the
      pod interface stands in for the plugin's own. */
  lemma CheckSeesEveryPiece(env: Env, n: Net, a: bool, b: bool, c: bool, d: bool, e: bool, g: bool)
    requires Unconfigured(env, n) && Installable(env, n)
    ensures Check(env, Partial(env, n, a, b, c, d, e, g)) <==>
            if c && env.conf.gateway == 0 then true
            else if !a && !d && !e && !g then env.conf.failOpen
            else a && b && (c || RoutesGateway(n, PodLink(env, n).value, SetupFor(env, 0))) && d && e && g
  {
    PartialState(env, n, a, b, c, d, e, g);
    PartialIpv4Ok(env, n, a, b, c, d, e, g);
    PartialFilters(env, n, a, b, c, d, e, g);
  }

  lemma BareState(env: Env, n: Net)
    requires Unconfigured(env, n) && PodLink(env, n).Some? && State(n, env.ifName, SetupFor(env, 0)) != ForeignIpv4
    ensures State(n, env.ifName, SetupFor(env, 0)) == NoIpv4
    ensures EgressMatch(n, PodLink(env, n).value) == None && IngressMatch(n, PodLink(env, n).value) == None
  {
    var l := PodLink(env, n).value;
    LastMatchNone(n.filters, l.index, EgressHook, EGRESS_NAME);
    LastMatchNone(n.filters, l.index, IngressHook, INGRESS_NAME);
  }

  /** ADD and CHECK agree: in every legal run, after an ADD that reported success, whether it
      installed, skipped or failed open, CHECK succeeds, exactly when the pod interface exists or
      the decision was to skip. */
  lemma AddCheckAgree(env: Env, n: Net, ops: seq<Op>)
    requires Unconfigured(env, n) && Legal(env, Life(n, false), ops)
    ensures var x := After(env, Life(n, false), ops);
            x.added ==> (Check(env, x.net) <==> Verdict(env) != SkipNone || PodLink(env, n).Some?)
  {
    var x := After(env, Life(n, false), ops);
    RunStaysSound(env, n, Life(n, false), ops);
    if x.added && x.net == n && PodLink(env, n).Some? && State(n, env.ifName, SetupFor(env, 0)) != ForeignIpv4 {
      BareState(env, n);
    }
    if x.added && x.net != n {
      CheckSeesEveryPiece(env, n, true, true, true, true, true, true);
      PartialComplete(env, n);
    }
  }

  /** The exception is real: an ADD that fails open because the interface is missing reports
      success, and CHECK then fails. */
  lemma FailOpenWithoutInterface(env: Env, n: Net)
    requires env.res.Some? && Verdict(env) == SkipNone && env.conf.failOpen && PodLink(env, n).None?
    ensures Add(env, n, NoFault) == (n, true) && !Check(env, n)
  {
  }

  // ---- ADD after ADD

  lemma {:induction false} PutNeighAgain(s: seq<Neigh>, n: Neigh)
    requires forall x :: x in s ==> !(x.link == n.link && x.ip == n.ip)
    ensures PutNeigh(s + [n], n) == s + [n]
  {
    if s == [] {
      assert s + [n] == [n];
    } else {
      assert s[0] in s && (s + [n])[1..] == s[1..] + [n];
      PutNeighAgain(s[1..], n);
    }
  }

  lemma {:induction false} PutRouteAgain(s: seq<Route>, r: Route, t: seq<Route>)
    requires forall x :: x in s ==> !SameRoute(x, r)
    ensures PutRoute(s + [r] + t, r) == s + [r] + t
  {
    if s == [] {
      assert (s + [r] + t)[1..] == t;
    } else {
      assert s[0] in s && (s + [r] + t)[1..] == s[1..] + [r] + t;
      PutRouteAgain(s[1..], r, t);
    }
  }

  lemma {:induction false} PutFilterAgain(s: seq<Filter>, f: Filter, t: seq<Filter>)
    requires forall x :: x in s ==> !(x.link == f.link && x.hook == f.hook)
    ensures PutFilter(s + [f] + t, f) == s + [f] + t
  {
    if s == [] {
      assert (s + [f] + t)[1..] == t;
    } else {
      assert s[0] in s && (s + [f] + t)[1..] == s[1..] + [f] + t;
      PutFilterAgain(s[1..], f, t);
    }
  }

  /** Setting up what is set up changes nothing, however far it gets. */
  lemma SetupIsIdempotent(n: Net, l: Link, s: Setup, te: Tag, ti: Tag, k: nat, j: nat)
    requires Bare(n, l, s) && DefaultFree(n, l, s)
    ensures var c := Complete(n, l, s, te, ti);
            Configured(c, l, s, k) == c && Attached(c, l, te, ti, j) == c
  {
    var gw, def := GatewayRoute(l, s), DefaultRoute(l, s);
    var e, g := OurFilter(l, EgressHook, te), OurFilter(l, IngressHook, ti);
    PutNeighAgain(n.neighs, OurNeigh(l, s));
    forall x | x in n.routes
      ensures !SameRoute(x, gw)
    {
      assert BareRoute(x, l, s);
    }
    PutRouteAgain(n.routes, gw, [def]);
    PutRouteAgain(n.routes + [gw], def, []);
    assert n.routes + [gw, def] == n.routes + [gw] + [def] == n.routes + [gw] + [def] + [];
    PutFilterAgain(n.filters, e, [g]);
    PutFilterAgain(n.filters + [e], g, []);
    assert n.filters + [e, g] == n.filters + [e] + [g] == n.filters + [e] + [g] + [];
  }

  predicate FailsInIpv4(fault: Fault) {
    fault in {AddrFault, NeighFault, GatewayFault, DefaultFault}
  }

  /** A second ADD on an installed pod leaves all of the plugin's state or none of it exactly when
      it does not fail among the IPv4 steps. Its rollback from those does not detach the filters.
      One that does not fail changes nothing. A gateway of 0.0.0.0 makes ADD skip. */
  lemma ReAddIsSafeExactly(env: Env, n: Net, fault: Fault)
    requires Unconfigured(env, n) && Installable(env, n)
    ensures var c := CompleteFor(env, n);
            var (m, ok) := Add(env, c, fault);
            && ((m == n || m == c) <==> env.conf.gateway == 0 || !FailsInIpv4(fault))
            && (fault == NoFault ==> m == c && ok)
  {
    PartialState(env, n, true, true, true, true, true, true);
    PartialComplete(env, n);
    InstalledAgain(env, n, fault);
    RollbackLeavesFilters(env, n);
    assert |CompleteFor(env, n).addrs| == |n.addrs| + 1;
  }

  lemma InstalledAgain(env: Env, n: Net, fault: Fault)
    requires Unconfigured(env, n) && Installable(env, n)
    ensures var c := CompleteFor(env, n);
            Installed(env, c, fault) ==
            if fault in {LinkFault, PeerFault, LoadFault, EnterFault} then (c, false)
            else if FailsInIpv4(fault) then (Removed(c, PodLink(env, n).value, SetupFor(env, env.peer.value)), false)
            else if AttachSteps(fault) < 3 then (n, false)
            else (c, true)
  {
    var l, s, s0 := PodLink(env, n).value, SetupFor(env, env.peer.value), SetupFor(env, 0);
    BareAnyPeer(n, l, s0, env.peer.value);
    NoDefaultClash(env, n, s);
    SetupIsIdempotent(n, l, s, env.egressTag, env.ingressTag, Ipv4Steps(fault), AttachSteps(fault));
    DelRestoresComplete(env, n);
  }

  lemma RollbackLeavesFilters(env: Env, n: Net)
    requires PodLink(env, n).Some? && env.peer.Some? && Bare(n, PodLink(env, n).value, SetupFor(env, 0))
    ensures var c := CompleteFor(env, n);
            var m := Removed(c, PodLink(env, n).value, SetupFor(env, env.peer.value));
            && m.addrs == n.addrs && m.neighs == n.neighs && m.routes == n.routes
            && m.filters == c.filters != n.filters && m != c
  {
    var c := CompleteFor(env, n);
    var l, s := PodLink(env, n).value, SetupFor(env, env.peer.value);
    BareAnyPeer(n, l, SetupFor(env, 0), env.peer.value);
    var n1 := c.(clsact := n.clsact, filters := n.filters);
    assert n.routes + [GatewayRoute(l, s)] + [DefaultRoute(l, s)] == n.routes + [GatewayRoute(l, s), DefaultRoute(l, s)];
    RemovedRestores(n, l, s, s.peer, true, true, true, true, n1);
    assert |c.filters| == |n.filters| + 2 && |c.addrs| == |n.addrs| + 1;
  }

  /** Repeating a successful ADD is not safe: if its first step fails, the rollback takes the IPv4
      state away and leaves the filters. */
  lemma FailingReAddLeavesFilters(env: Env, n: Net)
    requires Unconfigured(env, n) && Installable(env, n) && env.conf.gateway != 0
    ensures var m := Add(env, CompleteFor(env, n), AddrFault).0;
            && m.addrs == n.addrs && m.neighs == n.neighs && m.routes == n.routes
            && m.filters == CompleteFor(env, n).filters != n.filters
  {
    PartialState(env, n, true, true, true, true, true, true);
    PartialComplete(env, n);
    RollbackLeavesFilters(env, n);
  }

  // ---- what it takes for DEL to undo ADD

  function Towards(s: seq<Route>, p: Prefix): seq<Route> {
    if s == [] then [] else if Dst(s[0]) == p then [s[0]] + Towards(s[1..], p) else Towards(s[1..], p)
  }

  lemma {:induction false} TowardsPut(s: seq<Route>, r: Route, p: Prefix)
    ensures Towards(PutRoute(s, r), p) == if Dst(r) == p then PutRoute(Towards(s, p), r) else Towards(s, p)
  {
    if s == [] {
      assert PutRoute(s, r) == [r];
      assert [r][1..] == [];
    } else {
      var t := PutRoute(s, r);
      TowardsPut(s[1..], r, p);
      if SameRoute(s[0], r) {
        assert t[1..] == s[1..];
      } else {
        assert t[1..] == PutRoute(s[1..], r);
      }
      assert Dst(s[0]) == p ==> Towards(s, p)[0] == s[0] && Towards(s, p)[1..] == Towards(s[1..], p);
    }
  }

  lemma {:induction false} TowardsDrop(s: seq<Route>, r: Route, p: Prefix)
    ensures Towards(DropRoute(s, r), p) == if Dst(r) == p then DropRoute(Towards(s, p), r) else Towards(s, p)
  {
    if s != [] {
      var t := DropRoute(s, r);
      TowardsDrop(s[1..], r, p);
      if !Deletes(r, s[0]) {
        assert t[1..] == DropRoute(s[1..], r);
      }
      assert Dst(s[0]) == p ==> Towards(s, p)[0] == s[0] && Towards(s, p)[1..] == Towards(s[1..], p);
    }
  }

  lemma {:induction false} TowardsHolds(s: seq<Route>, r: Route)
    requires r in s
    ensures r in Towards(s, Dst(r))
  {
    if s[0] != r {
      TowardsHolds(s[1..], r);
    }
  }

  /** Putting a route and dropping it again changes the table if either touches another route. */
  lemma {:induction false} PutDropShows(s: seq<Route>, r: Route)
    requires DropRoute(PutRoute(s, r), r) == s
    ensures forall x :: x in s ==> !SameRoute(x, r) && !Deletes(r, x)
  {
    if s != [] {
      PutDropHead(s, r);
      assert !SameRoute(s[0], r);
      PutIsNoShift(s[1..], r, s[0]);
      assert s == [s[0]] + s[1..];
      assert !Deletes(r, s[0]);
      PutDropShows(s[1..], r);
    }
  }

  lemma PutDropHead(s: seq<Route>, r: Route)
    requires s != []
    ensures var t := DropRoute(PutRoute(s, r), r);
            if SameRoute(s[0], r) then t == s[1..]
            else if Deletes(r, s[0]) then t == PutRoute(s[1..], r)
            else t == [s[0]] + DropRoute(PutRoute(s[1..], r), r)
  {
  }

  lemma PutIsNoShift(s: seq<Route>, r: Route, x: Route)
    requires !SameRoute(x, r)
    ensures PutRoute(s, r) != [x] + s
  {
    if |PutRoute(s, r)| > |s| {
      PutGrows(s, r);
      assert multiset(s + [r])[x] == multiset(s)[x];
      assert multiset([x] + s)[x] == multiset(s)[x] + 1;
    }
  }

  lemma {:induction false} PutGrows(s: seq<Route>, r: Route)
    requires |PutRoute(s, r)| > |s|
    ensures PutRoute(s, r) == s + [r]
  {
    if s != [] {
      PutGrows(s[1..], r);
      assert s == [s[0]] + s[1..];
    }
  }

  lemma RoutesUndoneShows(rs: seq<Route>, gw: Route, def: Route)
    requires Dst(gw) != Dst(def)
    requires DropRoute(DropRoute(PutRoute(PutRoute(rs, gw), def), def), gw) == rs
    ensures forall x :: x in rs ==> !SameRoute(x, gw) && !Deletes(gw, x) && !SameRoute(x, def) && !Deletes(def, x)
  {
    var a := PutRoute(rs, gw);
    var b := PutRoute(a, def);
    var c := DropRoute(b, def);
    TowardsUndone(rs, a, b, c, gw, def, gw);
    TowardsUndone(rs, a, b, c, gw, def, def);
    forall x | x in rs
      ensures !SameRoute(x, gw) && !Deletes(gw, x) && !SameRoute(x, def) && !Deletes(def, x)
    {
      TowardsHolds(rs, x);
    }
  }

  lemma TowardsUndone(rs: seq<Route>, a: seq<Route>, b: seq<Route>, c: seq<Route>, gw: Route, def: Route, t: Route)
    requires Dst(gw) != Dst(def) && t in {gw, def}
    requires a == PutRoute(rs, gw) && b == PutRoute(a, def) && c == DropRoute(b, def) && DropRoute(c, gw) == rs
    ensures forall x :: x in Towards(rs, Dst(t)) ==> !SameRoute(x, t) && !Deletes(t, x)
  {
    var p := Dst(t);
    TowardsPut(rs, gw, p);
    TowardsPut(a, def, p);
    TowardsDrop(b, def, p);
    TowardsDrop(c, gw, p);
    PutDropShows(Towards(rs, p), t);
  }

  lemma {:induction false} DropAddrDrops(s: seq<Addr>, a: Addr)
    ensures a !in DropAddr(s, a)
  {
    if s != [] {
      DropAddrDrops(s[1..], a);
    }
  }

  lemma {:induction false} DropNeighDrops(s: seq<Neigh>, link: nat, ip: Ip)
    ensures forall x :: x in DropNeigh(s, link, ip) ==> !(x.link == link && x.ip == ip)
  {
    if s != [] {
      DropNeighDrops(s[1..], link, ip);
    }
  }

  lemma {:induction false} OffLinkDrops(s: seq<Filter>, link: nat)
    ensures forall x :: x in OffLink(s, link) ==> x.link != link
  {
    if s != [] {
      OffLinkDrops(s[1..], link);
    }
  }

  /** DEL brings back the namespace an ADD found exactly when it was bare: anything the plugin
      would take for its own, replace or delete is lost. */
  lemma DelUndoesAddExactly(env: Env, n: Net)
    requires DistinctLinks(n) && Installable(env, n)
    ensures Del(env, Add(env, n, NoFault).0) == n <==> Bare(n, PodLink(env, n).value, SetupFor(env, 0))
  {
    var l, s, s0 := PodLink(env, n).value, SetupFor(env, env.peer.value), SetupFor(env, 0);
    if Bare(n, l, s0) {
      InstallIsAllOrNothing(env, n, NoFault);
      DelRestoresComplete(env, n);
    }
    var m := Del(env, Add(env, n, NoFault).0);
    if m == n {
      UndoneIsBare(n, l, s, s0, env.egressTag, env.ingressTag);
    }
  }

  lemma UndoneIsBare(n: Net, l: Link, s: Setup, s0: Setup, te: Tag, ti: Tag)
    requires s.pod == s0.pod && s.gateway == s0.gateway
    requires Removed(Detached(Attached(Configured(n, l, s, 4), l, te, ti, 3), l), l, s0) == n
    ensures Bare(n, l, s0)
  {
    var n1 := Configured(n, l, s, 4);
    var n2 := Attached(n1, l, te, ti, 3);
    DropAddrDrops(n2.addrs, OurAddr(l, s0));
    DropNeighDrops(n2.neighs, l.index, s0.gateway);
    OffLinkDrops(n2.filters, l.index);
    RoutesUndoneShows(n.routes, GatewayRoute(l, s0), DefaultRoute(l, s0));
    forall r | r in n.routes
      ensures BareRoute(r, l, s0)
    {
    }
  }
}
