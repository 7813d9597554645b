/** Path-MTU discovery through the translator. */
module Pmtu {
  import opened Bytes
  import opened Headers
  import opened Kernel
  import opened EgressSpec
  import opened IngressSpec
  import opened EgressTheorems
  import opened IngressTheorems
  import opened Wire
  import opened RoundTrip
  import opened Quoting
  import Netns

  /** An IPv4 packet or fragment the pod sends: total length, option bytes, fragment or not. */
  datatype Probe = Probe(size: nat, optlen: nat, frag: bool)

  predicate Sendable(p: Probe) {
    20 + p.optlen <= p.size <= 0xffff
  }

  /** Its size once egress has translated it. */
  function OutSize(p: Probe): int {
    p.size - p.optlen + if p.frag then 28 else 20
  }

  function ProbeOf(f: bytes): Probe
    requires Has4(f) && 20 <= Ihl(f)
  {
    Probe(TotLen(f), Ihl(f) - 20, IsFrag4(f))
  }

  /** `OutSize` is what the program produces. */
  lemma EgressSize(cfg: Config, mode: Mode, f: bytes, g: bytes)
    requires Rel(cfg, mode, f, g) && |f| == 14 + TotLen(f) as int
    ensures Sendable(ProbeOf(f)) && |g| - 14 == OutSize(ProbeOf(f))
  {
    EgressHeader(cfg, mode, f, g);
  }

  /** A translated Packet Too Big about the pod's packet reaches it as Fragmentation Needed with
      the translated MTU, reduced by the Fragment header exactly when the packet was a fragment. */
  lemma TooBigReports(cfg: Config, m1: Mode, m2: Mode, f: bytes, g: bytes, e: bytes, h: bytes,
                      n: nat, hop: byte, exact: bool)
    requires ErrorAbout(cfg, m1, f, g, e, n, hop) && Rel6(cfg, m2, e, h, exact)
    requires Rest6(e)[0] == ICMP6_PKT_TOOBIG
    ensures |h| >= 62 && h[34] == ICMP_DEST_UNREACH && h[35] == 4 && h[38..40] == [0, 0]
    ensures GetBe16(h, 40) == TranslatedMtu(GetBe32(Rest6(e), 4), IsFrag4(f))
  {
    var a := Rest6(e);
    AboutQuotes(cfg, m1, f, g, e, n, hop);
    QuoteReads(cfg, f, g, a, n, hop);
    L4Rel6Length(cfg, m2, e, a, h[34..], exact);
    ErrorTypeReads(cfg, m2, e, a, h[34..], exact);
    assert h[34..][4..8] == [0, 0] + Be16(TranslatedMtu(GetBe32(a, 4), IsFrag4(f)));
    MtuWord(h, TranslatedMtu(GetBe32(a, 4), IsFrag4(f)));
  }

  lemma MtuWord(h: bytes, mtu: u16)
    requires |h| >= 62 && h[34..][4..8] == [0, 0] + Be16(mtu)
    ensures h[38..40] == [0, 0] && GetBe16(h, 40) == mtu
  {
    Be16RoundTrip(mtu);
    var w := h[34..][4..8];
    assert h[38] == w[0] && h[39] == w[1] && h[40] == w[2] && h[41] == w[3];
  }

  /** The pod's estimate over a run of Packet Too Big messages from a path of fixed MTU: each is
      provoked by something within the estimate that does not fit once translated. */
  predicate Run(path: u32, es: seq<int>, ps: seq<Probe>) {
    && |es| == |ps| + 1
    && forall i :: 0 <= i < |ps| ==> Event(path, es[i], ps[i], es[i + 1])
  }

  predicate Event(path: u32, before: int, p: Probe, after: int) {
    && Sendable(p) && p.size <= before && OutSize(p) > path
    && var mtu := TranslatedMtu(path, p.frag);
       after == if mtu < before then mtu else before
  }

  /** Nothing within the estimate is too big any more. */
  ghost predicate Settled(path: u32, estimate: int) {
    forall p: Probe :: Sendable(p) && p.size <= estimate ==> OutSize(p) <= path
  }

  /** Every message strictly lowers the estimate. */
  lemma EventLowers(path: u32, before: int, p: Probe, after: int)
    requires path >= 1280 && Event(path, before, p, after)
    ensures after < before && after == TranslatedMtu(path, p.frag)
  {
  }

  lemma FragmentEventSettles(path: u32, before: int, p: Probe, after: int)
    requires path >= 1280 && Event(path, before, p, after) && p.frag
    ensures Settled(path, after)
  {
  }

  /** Once a whole packet has been refused, only a fragment can still be. */
  lemma WholeEventLeavesFragments(path: u32, before: int, p: Probe, after: int, q: Probe, next: int)
    requires path >= 1280 && Event(path, before, p, after) && !p.frag && Event(path, after, q, next)
    ensures q.frag
  {
  }

  /** For every path MTU of at least 1280 and every starting estimate, at most two Packet Too Big
      messages occur, each lowers the estimate, and after two everything within the estimate fits
      the path. */
  lemma PmtuConverges(path: u32, es: seq<int>, ps: seq<Probe>)
    requires path >= 1280 && Run(path, es, ps)
    ensures |ps| <= 2
    ensures forall i :: 0 <= i < |ps| ==> es[i + 1] < es[i]
    ensures |ps| == 2 || (|ps| == 1 && ps[0].frag) ==> Settled(path, es[|ps|])
  {
    forall i | 0 <= i < |ps|
      ensures es[i + 1] < es[i]
    {
      EventLowers(path, es[i], ps[i], es[i + 1]);
    }
    if |ps| >= 3 {
      NoThird(path, es[0], ps[0], es[1], ps[1], es[2], ps[2], es[3]);
    }
    if |ps| == 1 && ps[0].frag {
      FragmentEventSettles(path, es[0], ps[0], es[1]);
    }
    if |ps| == 2 {
      TwoSettle(path, es[0], ps[0], es[1], ps[1], es[2]);
    }
  }

  lemma TwoSettle(path: u32, e0: int, p0: Probe, e1: int, p1: Probe, e2: int)
    requires path >= 1280 && Event(path, e0, p0, e1) && Event(path, e1, p1, e2)
    ensures Settled(path, e2)
  {
    if !p0.frag {
      WholeEventLeavesFragments(path, e0, p0, e1, p1, e2);
    }
    FragmentOrSettled(path, e1, p1, e2, p0, e0);
  }

  lemma FragmentOrSettled(path: u32, e1: int, p1: Probe, e2: int, p0: Probe, e0: int)
    requires path >= 1280 && Event(path, e0, p0, e1) && Event(path, e1, p1, e2) && (p0.frag || p1.frag)
    ensures Settled(path, e2)
  {
    EventLowers(path, e1, p1, e2);
    EventLowers(path, e0, p0, e1);
  }

  lemma NoThird(path: u32, e0: int, p0: Probe, e1: int, p1: Probe, e2: int, p2: Probe, e3: int)
    requires path >= 1280 && Event(path, e0, p0, e1) && Event(path, e1, p1, e2)
    ensures !Event(path, e2, p2, e3)
  {
    TwoSettle(path, e0, p0, e1, p1, e2);
  }

  /** The bound is reached: a whole packet and then a fragment. */
  lemma TwoMessagesHappen(path: u32, start: int)
    requires 1280 <= path <= 0xff00 && start == Netns.RouteMtu(path + 100)
    ensures Run(path, [start, path - 20, path - 28], [Probe(path, 0, false), Probe(path - 20, 0, true)])
  {
    assert Event(path, start, Probe(path, 0, false), path - 20);
    assert Event(path, path - 20, Probe(path - 20, 0, true), path - 28);
  }

  /** The route MTU keeps whole packets within the link; a fragment needs eight bytes more and
      fits exactly when it leaves them. */
  lemma RouteMtuCoversLink(linkMtu: int, p: Probe)
    requires Sendable(p) && p.size <= Netns.RouteMtu(linkMtu)
    ensures !p.frag ==> OutSize(p) <= linkMtu
    ensures p.frag ==> (OutSize(p) <= linkMtu <==> p.size <= Netns.RouteMtu(linkMtu) - 8 + p.optlen)
  {
  }

  /** A fragment that fills the route MTU does not fit the link. */
  lemma FullFragmentExceedsLink(linkMtu: int)
    requires 40 <= linkMtu <= 0xffff
    ensures var p := Probe(Netns.RouteMtu(linkMtu), 0, true);
            Sendable(p) && p.size <= Netns.RouteMtu(linkMtu) && OutSize(p) == linkMtu + 8
  {
  }

  // ---- the same on frames

  /** The pod sends `f`, a router sees `g` and answers `e`, and the pod gets `h`. */
  datatype Exchange = Exchange(f: bytes, g: bytes, e: bytes, h: bytes, n: nat, hop: byte, m1: Mode, m2: Mode, exact: bool)

  /** A packet within the estimate `before` is too big for the path once translated; the router says
      so, and the pod takes the smaller of its estimate and the MTU it is told. */
  ghost predicate Refused(cfg: Config, path: u32, before: int, x: Exchange, after: int) {
    && ErrorAbout(cfg, x.m1, x.f, x.g, x.e, x.n, x.hop) && Rel6(cfg, x.m2, x.e, x.h, x.exact) && |x.h| >= 62
    && |x.f| == 14 + TotLen(x.f) as int && TotLen(x.f) as int <= before && |x.g| - 14 > path as int
    && Rest6(x.e)[0] == ICMP6_PKT_TOOBIG && GetBe32(Rest6(x.e), 4) == path
    && var mtu := GetBe16(x.h, 40);
       after == if mtu as int < before then mtu as int else before
  }

  /** Everything the pod may still send fits the path once translated. */
  ghost predicate AllFit(cfg: Config, path: u32, estimate: int) {
    forall mode: Mode, f: bytes, g: bytes ::
      OnWire(cfg, mode, f, g) && |f| == 14 + TotLen(f) as int && TotLen(f) as int <= estimate ==> |g| - 14 <= path as int
  }

  lemma WireSize(cfg: Config, mode: Mode, f: bytes, g: bytes)
    requires OnWire(cfg, mode, f, g) && |f| == 14 + TotLen(f) as int
    ensures Sendable(ProbeOf(f)) && |g| - 14 == OutSize(ProbeOf(f))
  {
    WireHeader(cfg, mode, f, g);
  }

  lemma RefusalIsEvent(cfg: Config, path: u32, before: int, x: Exchange, after: int)
    requires Refused(cfg, path, before, x, after)
    ensures Event(path, before, ProbeIn(x), after) && ProbeIn(x).frag == AboutFragment(x)
  {
    WireSize(cfg, x.m1, x.f, x.g);
    TooBigReports(cfg, x.m1, x.m2, x.f, x.g, x.e, x.h, x.n, x.hop, x.exact);
  }

  lemma SettledFits(cfg: Config, path: u32, estimate: int)
    requires Settled(path, estimate)
    ensures AllFit(cfg, path, estimate)
  {
    forall mode: Mode, f: bytes, g: bytes
      | OnWire(cfg, mode, f, g) && |f| == 14 + TotLen(f) as int && TotLen(f) as int <= estimate
      ensures |g| - 14 <= path as int
    {
      WireSize(cfg, mode, f, g);
    }
  }

  /** Exchanges, each refused by the path, that take the estimate through `es`. */
  ghost predicate FrameRun(cfg: Config, path: u32, es: seq<int>, xs: seq<Exchange>) {
    |es| == |xs| + 1 && forall i :: 0 <= i < |xs| ==> Refused(cfg, path, es[i], xs[i], es[i + 1])
  }

  predicate AboutFragment(x: Exchange) {
    Has4(x.f) && IsFrag4(x.f)
  }

  /** Any number of packets, each refused by the path and reported through both programs: there are
      at most two, each lowers the estimate, and after two, or one about a fragment, every packet
      and fragment within it fits. */
  lemma PmtuConvergesOnFrames(cfg: Config, path: u32, es: seq<int>, xs: seq<Exchange>)
    requires path >= 1280 && FrameRun(cfg, path, es, xs)
    ensures |xs| <= 2
    ensures forall i :: 0 <= i < |xs| ==> es[i + 1] < es[i]
    ensures |xs| == 2 || (|xs| == 1 && AboutFragment(xs[0])) ==> AllFit(cfg, path, es[|xs|])
  {
    var ps := Probes(cfg, path, es, xs);
    PmtuConverges(path, es, ps);
    if |xs| == 2 || (|xs| == 1 && AboutFragment(xs[0])) {
      SettledFits(cfg, path, es[|xs|]);
    }
  }

  lemma Probes(cfg: Config, path: u32, es: seq<int>, xs: seq<Exchange>) returns (ps: seq<Probe>)
    requires FrameRun(cfg, path, es, xs)
    ensures Run(path, es, ps) && |ps| == |xs|
    ensures forall i :: 0 <= i < |xs| ==> ps[i].frag == AboutFragment(xs[i])
  {
    ps := seq(|xs|, i requires 0 <= i < |xs| => ProbeIn(xs[i]));
    forall i | 0 <= i < |xs|
      ensures Event(path, es[i], ps[i], es[i + 1]) && ps[i].frag == AboutFragment(xs[i])
    {
      RefusalIsEvent(cfg, path, es[i], xs[i], es[i + 1]);
    }
  }

  function ProbeIn(x: Exchange): Probe {
    if Has4(x.f) && 20 <= Ihl(x.f) then ProbeOf(x.f) else Probe(0, 0, false)
  }
}
