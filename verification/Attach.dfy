/** The clsact qdisc and the two filters on the pod interface. */
module Attach {
  import opened Wrappers
  import opened Netns

  const EGRESS_NAME: string := "clat_egress"
  const INGRESS_NAME: string := "clat_ingress"

  function OurFilter(l: Link, hook: Hook, tag: Tag): Filter {
    Filter(l.index, hook, true, if hook.EgressHook? then EGRESS_NAME else INGRESS_NAME, true, tag)
  }

  /** Filters with the plugin's priority and handle replace each other per hook. */
  function PutFilter(s: seq<Filter>, f: Filter): seq<Filter> {
    if s == [] then [f]
    else if s[0].link == f.link && s[0].hook == f.hook then [f] + s[1..]
    else [s[0]] + PutFilter(s[1..], f)
  }

  function DropFilter(s: seq<Filter>, f: Filter): seq<Filter> {
    if s == [] then [] else if s[0] == f then s[1..] else [s[0]] + DropFilter(s[1..], f)
  }

  /** The filters of every other link. */
  function OffLink(s: seq<Filter>, link: nat): seq<Filter> {
    if s == [] then []
    else if s[0].link == link then OffLink(s[1..], link)
    else [s[0]] + OffLink(s[1..], link)
  }

  /** `Attach` stopped after `k` of its three steps. */
  function Attached(n: Net, l: Link, te: Tag, ti: Tag, k: nat): Net {
    var n1 := if k >= 1 then n.(clsact := n.clsact + {l.index}) else n;
    var n2 := if k >= 2 then n1.(filters := PutFilter(n1.filters, OurFilter(l, EgressHook, te))) else n1;
    if k >= 3 then n2.(filters := PutFilter(n2.filters, OurFilter(l, IngressHook, ti))) else n2
  }

  function AttachSteps(fault: Fault): nat {
    match fault
    case QdiscFault => 0
    case EgressFault => 1
    case IngressFault => 2
    case _ => 3
  }

  /** Without a qdisc there is nothing to list and nothing to delete; with one, deleting it takes
      every filter on the link along. */
  function Detached(n: Net, l: Link): Net {
    if l.index in n.clsact then n.(clsact := n.clsact - {l.index}, filters := OffLink(n.filters, l.index))
    else n
  }

  predicate Matches(f: Filter, link: nat, hook: Hook, name: string) {
    f.link == link && f.hook == hook && f.bpf && f.name == name && f.direct
  }

  function LastMatch(s: seq<Filter>, link: nat, hook: Hook, name: string): Option<Filter> {
    if s == [] then None
    else if Matches(s[|s| - 1], link, hook, name) then Some(s[|s| - 1])
    else LastMatch(s[..|s| - 1], link, hook, name)
  }

  function EgressMatch(n: Net, l: Link): Option<Filter> {
    LastMatch(n.filters, l.index, EgressHook, EGRESS_NAME)
  }

  function IngressMatch(n: Net, l: Link): Option<Filter> {
    LastMatch(n.filters, l.index, IngressHook, INGRESS_NAME)
  }

  predicate FiltersOk(n: Net, l: Link, te: Tag, ti: Tag) {
    && EgressMatch(n, l).Some? && EgressMatch(n, l).value.tag == te
    && IngressMatch(n, l).Some? && IngressMatch(n, l).value.tag == ti
  }

  /** `Attach`. */
  method AttachPrograms(ns: NetNs, l: Link, te: Tag, ti: Tag, fault: Fault) returns (ok: bool)
    modifies ns`clsact, ns`filters
    ensures ns.Snapshot() == Attached(old(ns.Snapshot()), l, te, ti, AttachSteps(fault))
    ensures ok <==> AttachSteps(fault) == 3
  {
    ok := false;
    if fault == QdiscFault {
      return;
    }
    ns.clsact := ns.clsact + {l.index};
    if fault == EgressFault {
      return;
    }
    ns.filters := PutFilter(ns.filters, OurFilter(l, EgressHook, te));
    if fault == IngressFault {
      return;
    }
    ns.filters := PutFilter(ns.filters, OurFilter(l, IngressHook, ti));
    ok := true;
  }

  lemma {:induction false} OffLinkDrop(s: seq<Filter>, f: Filter)
    ensures OffLink(DropFilter(s, f), f.link) == OffLink(s, f.link)
  {
    if s != [] && s[0] != f {
      OffLinkDrop(s[1..], f);
    }
  }

  /** `Detach`: the plugin's own filters hook by hook, then the qdisc. */
  method DetachPrograms(ns: NetNs, l: Link)
    modifies ns`clsact, ns`filters
    ensures ns.Snapshot() == Detached(old(ns.Snapshot()), l)
  {
    if l.index in ns.clsact {
      DeleteOwn(ns, l, EgressHook);
      DeleteOwn(ns, l, IngressHook);
    }
    if l.index in ns.clsact {
      ns.clsact := ns.clsact - {l.index};
      ns.filters := OffLink(ns.filters, l.index);
    }
  }

  method DeleteOwn(ns: NetNs, l: Link, hook: Hook)
    modifies ns`filters
    ensures OffLink(ns.filters, l.index) == OffLink(old(ns.filters), l.index)
  {
    var listed := ns.filters;
    var i := 0;
    while i < |listed|
      invariant 0 <= i <= |listed|
      invariant OffLink(ns.filters, l.index) == OffLink(old(ns.filters), l.index)
    {
      var f := listed[i];
      if f.link == l.index && f.hook == hook && f.bpf && (f.name == EGRESS_NAME || f.name == INGRESS_NAME) {
        OffLinkDrop(ns.filters, f);
        ns.filters := DropFilter(ns.filters, f);
      }
      i := i + 1;
    }
  }

  /** `AttachedFilters`: for each program the last filter that carries its name on its hook. */
  method AttachedFilters(ns: NetNs, l: Link) returns (out: map<string, Filter>)
    ensures out.Keys <= {EGRESS_NAME, INGRESS_NAME}
    ensures EGRESS_NAME in out <==> EgressMatch(ns.Snapshot(), l).Some?
    ensures EGRESS_NAME in out ==> out[EGRESS_NAME] == EgressMatch(ns.Snapshot(), l).value
    ensures INGRESS_NAME in out <==> IngressMatch(ns.Snapshot(), l).Some?
    ensures INGRESS_NAME in out ==> out[INGRESS_NAME] == IngressMatch(ns.Snapshot(), l).value
  {
    var e := FindProgram(ns.filters, l.index, EgressHook, EGRESS_NAME);
    var g := FindProgram(ns.filters, l.index, IngressHook, INGRESS_NAME);
    out := map[];
    if e.Some? {
      out := out[EGRESS_NAME := e.value];
    }
    if g.Some? {
      out := out[INGRESS_NAME := g.value];
    }
  }

  method FindProgram(fs: seq<Filter>, link: nat, hook: Hook, name: string) returns (r: Option<Filter>)
    ensures r == LastMatch(fs, link, hook, name)
  {
    r := None;
    var i := 0;
    while i < |fs|
      invariant 0 <= i <= |fs|
      invariant r == LastMatch(fs[..i], link, hook, name)
    {
      assert fs[..i + 1][..i] == fs[..i];
      if Matches(fs[i], link, hook, name) {
        r := Some(fs[i]);
      }
      i := i + 1;
    }
    assert fs[..i] == fs;
  }

  /** `CheckAttached`. */
  method CheckAttached(ns: NetNs, l: Link, te: Tag, ti: Tag) returns (ok: bool)
    ensures ok <==> FiltersOk(ns.Snapshot(), l, te, ti)
  {
    var m := AttachedFilters(ns, l);
    if EGRESS_NAME !in m || INGRESS_NAME !in m {
      return false;
    }
    return m[EGRESS_NAME].tag == te && m[INGRESS_NAME].tag == ti;
  }
}
