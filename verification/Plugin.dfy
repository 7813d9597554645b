/** CNI ADD, DEL and CHECK. */
module Plugin {
  import opened Wrappers
  import opened Netns
  import opened Attach

  /** An entry of the previous plugin's result, as far as the decision looks at it. */
  datatype ResultIp = NilIp | BadIp | V4 | V6(ip: Ip)

  datatype Conf = Conf(pod: Prefix, gateway: Ip, failOpen: bool, included: set<string>, excluded: set<string>)

  /** What one pod's calls have in common: configuration, interface, namespace, previous result,
      the host-side peer and the tags of its two programs. */
  datatype Env = Env(conf: Conf, ifName: string, namespace: string, res: Option<seq<ResultIp>>,
                     peer: Option<Mac>, egressTag: Tag, ingressTag: Tag)

  datatype Skip = SkipNone | SkipNoPrevResult | SkipExcluded | SkipNotIncluded | SkipHasIpv4 | SkipNoIpv6

  // ---- Decide

  ghost predicate HasV4(ips: seq<ResultIp>) {
    V4 in ips
  }

  function FirstV6(ips: seq<ResultIp>): Option<Ip> {
    if ips == [] then None else if ips[0].V6? then Some(ips[0].ip) else FirstV6(ips[1..])
  }

  ghost function Verdict(env: Env): Skip {
    if env.res.None? then SkipNoPrevResult
    else if env.namespace in env.conf.excluded then SkipExcluded
    else if env.conf.included != {} && env.namespace !in env.conf.included then SkipNotIncluded
    else if HasV4(env.res.value) then SkipHasIpv4
    else if FirstV6(env.res.value).None? then SkipNoIpv6
    else SkipNone
  }

  lemma {:induction false} FirstV6Snoc(ips: seq<ResultIp>, x: ResultIp)
    ensures FirstV6(ips + [x]) ==
            if FirstV6(ips).Some? then FirstV6(ips) else if x.V6? then Some(x.ip) else None
  {
    if ips == [] {
      assert ips + [x] == [x];
    } else {
      assert (ips + [x])[1..] == ips[1..] + [x];
      FirstV6Snoc(ips[1..], x);
    }
  }

  /** The pod's namespace is selected: not excluded, and listed if there is a list. */
  predicate NamespaceSelected(env: Env) {
    env.namespace !in env.conf.excluded && (env.conf.included == {} || env.namespace in env.conf.included)
  }

  /** The entry at `k` is the first IPv6 address. */
  predicate FirstV6At(ips: seq<ResultIp>, k: nat) {
    k < |ips| && ips[k].V6? && forall j :: 0 <= j < k ==> !ips[j].V6?
  }

  lemma {:induction false} FirstV6Found(ips: seq<ResultIp>)
    ensures FirstV6(ips).None? <==> forall j :: 0 <= j < |ips| ==> !ips[j].V6?
    ensures FirstV6(ips).Some? ==> exists k: nat :: FirstV6At(ips, k) && FirstV6(ips) == Some(ips[k].ip)
  {
    if ips != [] {
      var rest := ips[1..];
      FirstV6Found(rest);
      assert forall j :: 0 < j < |ips| ==> ips[j] == rest[j - 1];
      if ips[0].V6? {
        assert FirstV6At(ips, 0);
      } else if FirstV6(rest).Some? {
        var k: nat :| FirstV6At(rest, k) && FirstV6(rest) == Some(rest[k].ip);
        assert FirstV6At(ips, k + 1) && ips[k + 1] == rest[k];
      } else {
        assert forall j :: 0 <= j < |rest| ==> !rest[j].V6?;
      }
    }
  }

  /** Each reason to skip, and for exactly which calls it is given. */
  lemma VerdictExactly(env: Env)
    ensures Verdict(env) == SkipNoPrevResult <==> env.res.None?
    ensures Verdict(env) == SkipExcluded <==> env.res.Some? && env.namespace in env.conf.excluded
    ensures Verdict(env) == SkipNotIncluded <==>
            env.res.Some? && env.namespace !in env.conf.excluded && !NamespaceSelected(env)
    ensures Verdict(env) == SkipHasIpv4 <==>
            env.res.Some? && NamespaceSelected(env)
            && exists i :: 0 <= i < |env.res.value| && env.res.value[i] == V4
    ensures Verdict(env) == SkipNoIpv6 <==>
            env.res.Some? && NamespaceSelected(env)
            && forall i :: 0 <= i < |env.res.value| ==> env.res.value[i] != V4 && !env.res.value[i].V6?
    ensures Verdict(env) == SkipNone <==>
            && env.res.Some? && NamespaceSelected(env)
            && (forall i :: 0 <= i < |env.res.value| ==> env.res.value[i] != V4)
            && exists i :: 0 <= i < |env.res.value| && env.res.value[i].V6?
  {
    if env.res.Some? {
      FirstV6Found(env.res.value);
    }
  }

  /** `Decide`: the pod gets a CLAT exactly when its namespace is selected and its addresses are
      IPv6 only; then the first of them is its address. */
  method Decide(env: Env) returns (pod6: Option<Ip>, skip: Skip)
    ensures skip == Verdict(env)
    ensures skip == SkipNone <==>
            && env.res.Some? && NamespaceSelected(env)
            && (forall i :: 0 <= i < |env.res.value| ==> env.res.value[i] != V4)
            && exists i :: 0 <= i < |env.res.value| && env.res.value[i].V6?
    ensures skip == SkipNone ==>
            exists k: nat :: FirstV6At(env.res.value, k) && pod6 == Some(env.res.value[k].ip)
  {
    VerdictExactly(env);
    pod6 := None;
    if env.res.None? {
      return None, SkipNoPrevResult;
    }
    if env.namespace in env.conf.excluded {
      return None, SkipExcluded;
    }
    if |env.conf.included| > 0 {
      if env.namespace !in env.conf.included {
        return None, SkipNotIncluded;
      }
    }
    var ips := env.res.value;
    var i := 0;
    while i < |ips|
      invariant 0 <= i <= |ips|
      invariant V4 !in ips[..i]
      invariant pod6 == FirstV6(ips[..i])
    {
      assert ips[..i + 1] == ips[..i] + [ips[i]];
      FirstV6Snoc(ips[..i], ips[i]);
      match ips[i] {
        case NilIp =>
        case BadIp =>
        case V4 =>
          return None, SkipHasIpv4;
        case V6(ip) =>
          if pod6.None? {
            pod6 := Some(ip);
          }
      }
      i := i + 1;
    }
    assert ips[..i] == ips;
    FirstV6Found(ips);
    if pod6.None? {
      return None, SkipNoIpv6;
    }
    return pod6, SkipNone;
  }

  // ---- the commands as functions of the namespace

  function SetupFor(env: Env, peer: Mac): Setup {
    Setup(env.conf.pod, env.conf.gateway, peer)
  }

  function PodLink(env: Env, n: Net): Option<Link> {
    FindName(n.links, env.ifName)
  }

  /** A failing `ConfigureIPv4` is undone; a failing `Attach` is undone together with it. */
  function SetUpOrUndone(n: Net, l: Link, s: Setup, te: Tag, ti: Tag, fault: Fault): (Net, bool) {
    var n1 := Configured(n, l, s, Ipv4Steps(fault));
    if Ipv4Steps(fault) < 4 then (Removed(n1, l, s), false)
    else
      var n2 := Attached(n1, l, te, ti, AttachSteps(fault));
      if AttachSteps(fault) < 3 then (Removed(Detached(n2, l), l, s), false) else (n2, true)
  }

  function Installed(env: Env, n: Net, fault: Fault): (Net, bool) {
    var link := PodLink(env, n);
    if link.None? || !link.value.veth || env.peer.None? || fault in {LinkFault, PeerFault, LoadFault, EnterFault}
    then (n, false)
    else SetUpOrUndone(n, link.value, SetupFor(env, env.peer.value), env.egressTag, env.ingressTag, fault)
  }

  ghost function Add(env: Env, n: Net, fault: Fault): (Net, bool) {
    if env.res.None? then (n, false)
    else if Verdict(env) != SkipNone then (n, true)
    else if fault == InspectFault then (n, env.conf.failOpen)
    else if State(n, env.ifName, SetupFor(env, 0)) == ForeignIpv4 then (n, true)
    else
      var (n1, ok) := Installed(env, n, fault);
      (n1, ok || env.conf.failOpen)
  }

  function Del(env: Env, n: Net): Net {
    match PodLink(env, n)
    case None => n
    case Some(l) => Removed(Detached(n, l), l, SetupFor(env, 0))
  }

  ghost predicate Check(env: Env, n: Net) {
    if env.res.None? then false
    else if Verdict(env) != SkipNone then true
    else if PodLink(env, n).None? then false
    else
      var l := PodLink(env, n).value;
      var state := State(n, env.ifName, SetupFor(env, 0));
      if state == ForeignIpv4 then true
      else if state == NoIpv4 && EgressMatch(n, l).None? && IngressMatch(n, l).None? then env.conf.failOpen
      else
        && l.veth && env.peer.Some?
        && Ipv4Ok(n, l, SetupFor(env, env.peer.value))
        && FiltersOk(n, l, env.egressTag, env.ingressTag)
  }

  // ---- the commands on the namespace

  method Install(ns: NetNs, env: Env, fault: Fault) returns (ok: bool)
    modifies ns
    ensures (ns.Snapshot(), ok) == Installed(env, old(ns.Snapshot()), fault)
  {
    ok := false;
    var link := FindName(ns.links, env.ifName);
    if link.None? || fault == LinkFault || !link.value.veth {
      return;
    }
    if env.peer.None? || fault == PeerFault {
      return;
    }
    if fault == LoadFault || fault == EnterFault {
      return;
    }
    ok := SetUp(ns, link.value, SetupFor(env, env.peer.value), env.egressTag, env.ingressTag, fault);
  }

  method SetUp(ns: NetNs, l: Link, s: Setup, te: Tag, ti: Tag, fault: Fault) returns (ok: bool)
    modifies ns
    ensures (ns.Snapshot(), ok) == SetUpOrUndone(old(ns.Snapshot()), l, s, te, ti, fault)
  {
    ok := ns.ConfigureIPv4(l, s, fault);
    if !ok {
      ns.RemoveIPv4(l, s);
      return;
    }
    ok := AttachPrograms(ns, l, te, ti, fault);
    if !ok {
      DetachPrograms(ns, l);
      ns.RemoveIPv4(l, s);
    }
  }

  /** `failOrOpen`. */
  function FailOrOpen(env: Env): bool {
    env.conf.failOpen
  }

  /** `CmdAdd`. */
  method CmdAdd(ns: NetNs, env: Env, fault: Fault) returns (ok: bool)
    modifies ns
    ensures (ns.Snapshot(), ok) == Add(env, old(ns.Snapshot()), fault)
  {
    if env.res.None? {
      return false;
    }
    var pod6, skip := Decide(env);
    if skip != SkipNone {
      return true;
    }
    if fault == InspectFault {
      return FailOrOpen(env);
    }
    var state := ns.InspectIPv4(env.ifName, SetupFor(env, 0));
    if state == ForeignIpv4 {
      return true;
    }
    ok := Install(ns, env, fault);
    if !ok {
      ok := FailOrOpen(env);
    }
  }

  /** `CmdDel`: it never fails on missing state. */
  method CmdDel(ns: NetNs, env: Env)
    modifies ns
    ensures ns.Snapshot() == Del(env, old(ns.Snapshot()))
  {
    var link := FindName(ns.links, env.ifName);
    if link.None? {
      return;
    }
    DetachPrograms(ns, link.value);
    ns.RemoveIPv4(link.value, SetupFor(env, 0));
  }

  /** `CmdCheck`: read-only. */
  method CmdCheck(ns: NetNs, env: Env) returns (ok: bool)
    ensures ok <==> Check(env, ns.Snapshot())
  {
    if env.res.None? {
      return false;
    }
    var pod6, skip := Decide(env);
    if skip != SkipNone {
      return true;
    }
    var state := ns.InspectIPv4(env.ifName, SetupFor(env, 0));
    var link := FindName(ns.links, env.ifName);
    if link.None? {
      return false;
    }
    var l := link.value;
    var filters := AttachedFilters(ns, l);
    if state == ForeignIpv4 {
      return true;
    }
    if state == NoIpv4 && |filters| == 0 {
      assert filters == map[];
      return env.conf.failOpen;
    }
    assert EGRESS_NAME in filters || INGRESS_NAME in filters || filters == map[];
    if !l.veth || env.peer.None? {
      return false;
    }
    ok := ns.CheckIPv4(l, SetupFor(env, env.peer.value));
    if ok {
      ok := CheckAttached(ns, l, env.egressTag, env.ingressTag);
    }
  }
}
