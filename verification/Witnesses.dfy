/** Accepted packets at which the conditions of the other modules bite. */
module Witnesses {
  import opened Bytes
  import opened Checksum
  import opened Headers
  import opened Kernel
  import opened Counters
  import opened EgressSpec
  import opened IngressSpec
  import opened EgressTheorems
  import opened IngressTheorems
  import opened Wire
  import opened RoundTrip
  import opened Existence
  import opened Quoting
  import Netns
  import Options

  const SCTP: byte := 132

  // ---- frames

  /** An IPv4 frame from the pod: no options, not a fragment. */
  ghost function Frame4(cfg: Config, macs: bytes, proto: byte, dst: Addr4, rest: bytes): bytes
    requires |macs| == 12
  {
    macs + ETHER_IP4 + Ip4HdrSummed(0, 20 + |rest|, 0, IP_DF, 64, proto, cfg.pod4, dst) + rest
  }

  ghost predicate Plain4(cfg: Config, f: bytes, proto: byte, dst: Addr4, rest: bytes) {
    && Has4(f) && Version(f) == 4 && Ihl(f) == 20 && TotLen(f) as int == 20 + |rest| && |f| == 34 + |rest|
    && !IsFrag4(f) && Off4(f) == 0 && Proto4(f) == proto && Src4(f) == cfg.pod4 && Dst4(f) == dst
    && Rest4(f) == rest
  }

  lemma Frame4Reads(cfg: Config, macs: bytes, proto: byte, dst: Addr4, rest: bytes)
    requires |macs| == 12 && |rest| <= 65515
    ensures Plain4(cfg, Frame4(cfg, macs, proto, dst, rest), proto, dst, rest)
  {
    Ip4HdrReads(macs + ETHER_IP4, 0, 20 + |rest|, 0, IP_DF, 64, proto, cfg.pod4, dst, rest);
    UnfragmentedReads(Frame4(cfg, macs, proto, dst, rest));
  }

  /** An IPv6 frame to the pod. */
  function Frame6(cfg: Config, macs: bytes, nh: byte, src: Addr6, rest: bytes): bytes
    requires |macs| == 12
  {
    macs + ETHER_IP6 + Ip6Hdr(0, |rest|, nh, 64, src, cfg.pod6) + rest
  }

  ghost predicate Plain6(cfg: Config, f: bytes, nh: byte, src: Addr6, rest: bytes) {
    && |f| == 54 + |rest| && |f| >= 62 && Version6(f) == 6 && PayloadLen(f) as int == |rest| && Nh6(f) == nh
    && !IsFrag6(f) && Upper6(f) == nh && L4Len6(f) == |rest|
    && Src6(f) == src && Dst6(f) == cfg.pod6 && Rest6(f) == rest
  }

  lemma Frame6Reads(cfg: Config, macs: bytes, nh: byte, src: Addr6, rest: bytes)
    requires |macs| == 12 && 8 <= |rest| <= 65535 && nh != FRAGMENT
    ensures Plain6(cfg, Frame6(cfg, macs, nh, src, rest), nh, src, rest)
  {
    Ip6HdrReads(macs + ETHER_IP6, 0, |rest|, nh, 64, src, cfg.pod6, rest);
  }

  lemma MappedIsInside(cfg: Config, a: Addr4)
    ensures InPrefix(cfg, Mapped(cfg, a))
  {
    assert Mapped(cfg, a)[..12] == cfg.prefix[..12];
  }

  // ---- the all-zero echo reply

  /** It is wrong in IPv4, and right in IPv6. */
  lemma ZeroReplyLeavesRight(cfg: Config, mode: Mode, macs: bytes, dst: Addr4) returns (f: bytes, g: bytes)
    requires |macs| == 12 && !Unmappable(dst) && !mode.SumPartial?
    ensures Rel(cfg, mode, f, g) && |Rest4(f)| == 8 && |g| == 62
    ensures !Verifies([], Rest4(f)) && Verifies(Pseudo6(Src6(g), Dst6(g), Nh6(g), 8), g[54..62])
  {
    var rest: bytes := seq(8, _ => 0);
    f := Frame4(cfg, macs, ICMP, dst, rest);
    Frame4Reads(cfg, macs, ICMP, dst, rest);
    g := ZeroReplyLeaving(cfg, mode, dst, f, rest);
  }

  lemma ZeroReplyLeaving(cfg: Config, mode: Mode, dst: Addr4, f: bytes, rest: bytes) returns (g: bytes)
    requires Plain4(cfg, f, ICMP, dst, rest) && !Unmappable(dst) && !mode.SumPartial?
    requires |rest| == 8 && forall i :: 0 <= i < 8 ==> rest[i] == 0
    ensures Rel(cfg, mode, f, g) && |g| == 62
    ensures !Verifies([], rest) && Verifies(Pseudo6(Src6(g), Dst6(g), Nh6(g), 8), g[54..62])
  {
    g := EgressTranslation(cfg, mode, f);
    assert |g| == 62 by {
      EgressHeader(cfg, mode, f, g);
    }
    EgressEchoResidual(cfg, mode, f, g);
    assert rest[..8] == rest;
    SumZero(rest, false);
    VerifiesSpec([], rest);
  }

  /** Its ICMPv6 form is right, and comes out wrong. */
  lemma ZeroReplyArrivesWrong(cfg: Config, mode: Mode, macs: bytes, src: Addr4) returns (f: bytes, g: bytes)
    requires |macs| == 12 && !mode.SumPartial?
    ensures Rel6(cfg, mode, f, g, true) && L4Len6(f) == 8 == |Rest6(f)| && |g| >= 42
    ensures Verifies(IcmpPseudo(f), Rest6(f)) && !Verifies([], g[34..42])
  {
    var p6 := Pseudo6(Mapped(cfg, src), cfg.pod6, ICMPV6, 8);
    var c := Csum(Le(p6) + 129);
    var rest: bytes := [129, 0] + Le16(c) + [0, 0, 0, 0];
    f := Frame6(cfg, macs, ICMPV6, Mapped(cfg, src), rest);
    Frame6Reads(cfg, macs, ICMPV6, Mapped(cfg, src), rest);
    MappedIsInside(cfg, src);
    ReplySums(p6, c, rest);
    Pseudo6Sum(Mapped(cfg, src), cfg.pod6, ICMPV6, 8);
    VerifiesSpec(p6, rest);
    g := IngressTranslation(cfg, mode, f);
    IngressEchoResidual(cfg, mode, f, g, true);
    assert rest[..8] == rest;
  }

  lemma ReplySums(p6: bytes, c: u16, rest: bytes)
    requires rest == [129, 0] + Le16(c) + [0, 0, 0, 0] && IsCsum(c, Le(p6) + 129)
    ensures Cong(Le(p6) + Le(rest), 0)
  {
    LeConcat3([129, 0], Le16(c), [0, 0, 0, 0]);
    Le2([129, 0]);
    Le2(Le16(c));
    Le4(0, 0, 0, 0);
    CongOffset(c, 0 - (Le(p6) + 129), Le(p6) + 129);
  }

  // ---- a TCP checksum of 0xffff

  lemma FullChecksumComesBackZero(cfg: Config, macs: bytes, dst: Addr4) returns (f: bytes, g: bytes, h: bytes)
    requires |macs| == 12 && !Unmappable(dst)
    ensures TransportTrip(cfg, SumNone, SumNone, f, g, h, true)
    ensures |h| >= 34 && h[34..] != Rest4(f)
  {
    var rest: bytes := [0, 0, 0, 0, 0, 0, 0, 0, 0, 0, 0, 0, 0, 0, 0, 0, 255, 255, 0, 0];
    f := Frame4(cfg, macs, TCP, dst, rest);
    Frame4Reads(cfg, macs, TCP, dst, rest);
    g := EgressTranslation(cfg, SumNone, f);
    EgressHeader(cfg, SumNone, f, g);
    OnWireIsRel(cfg, SumNone, f, g);
    ReplyAccepted(cfg, SumNone, f, g);
    h := IngressTranslation(cfg, SumNone, Reply(g));
    RoundTripIsIdentity(cfg, SumNone, SumNone, f, g, h, true);
  }

  // ---- a payload above 65515 bytes

  lemma LongPayloadWraps(cfg: Config, mode: Mode, macs: bytes, src: Addr4) returns (f: bytes, g: bytes)
    requires |macs| == 12
    ensures Rel6(cfg, mode, f, g, true) && |f| == 54 + PayloadLen(f) as int == 65570
    ensures |g| >= 34 && |g| != 14 + TotLen(g) as int
  {
    var rest: bytes := seq(65516, _ => 0);
    f := Frame6(cfg, macs, SCTP, Mapped(cfg, src), rest);
    Frame6Reads(cfg, macs, SCTP, Mapped(cfg, src), rest);
    MappedIsInside(cfg, src);
    g := IngressTranslation(cfg, mode, f);
    IngressLength(cfg, mode, f, g, true);
  }

  // ---- a reply shorter than 62 bytes

  lemma ShortReplyPasses(cfg: Config, mode: Mode, macs: bytes, dst: Addr4) returns (f: bytes, g: bytes)
    requires |macs| == 12 && !Unmappable(dst)
    ensures Rel(cfg, mode, f, g) && |g| == 58 && Decision6(cfg, Reply(g)) == Pass
  {
    var rest: bytes := [8, 0, 247, 255];
    f := Frame4(cfg, macs, ICMP, dst, rest);
    Frame4Reads(cfg, macs, ICMP, dst, rest);
    g := EgressTranslation(cfg, mode, f);
    EgressHeader(cfg, mode, f, g);
    ReplyAccepted(cfg, mode, f, g);
  }

  // ---- quoted checksums

  /** A bare TCP header with checksum `x`. */
  function Segment(x: u16): (s: bytes)
    ensures |s| == 20 && GetLe16(s, 16) == x
  {
    [0, 0, 0, 0, 0, 0, 0, 0, 0, 0, 0, 0, 0, 0, 0, 0] + Le16(x) + [0, 0]
  }

  /** The segment `s` with checksum `x` leaves in `f`, goes on in `g` with checksum `y`, and is
      quoted whole in an acceptable error `e`. */
  ghost predicate QuotedAs(cfg: Config, dst: Addr4, x: u16, s: bytes, f: bytes, g: bytes, e: bytes, y: u16) {
    && |s| == 20 && GetLe16(s, 16) == x && Plain4(cfg, f, TCP, dst, s)
    && ErrorAbout(cfg, SumNone, f, g, e, 60, 63) && Decision6(cfg, e) == Translate
    && |g| == 74 && GetLe16(Out6(f, g), 16) == y && x == SentAs(EgressDelta(cfg, dst), y)
  }

  /** A TCP segment that goes out with checksum `y`, and an error from anywhere that quotes it. */
  lemma QuotedSegment(cfg: Config, macs: bytes, dst: Addr4, router: Addr6, y: u16)
    returns (x: u16, s: bytes, f: bytes, g: bytes, e: bytes)
    requires |macs| == 12 && !Unmappable(dst) && y != 0xffff
    ensures QuotedAs(cfg, dst, x, s, f, g, e, y)
  {
    x := SentAs(EgressDelta(cfg, dst), y);
    s := Segment(x);
    f := Frame4(cfg, macs, TCP, dst, s);
    Frame4Reads(cfg, macs, TCP, dst, s);
    g := SegmentLeaving(cfg, dst, x, s, f);
    MovedTo(x, GetLe16(Out6(f, g), 16), EgressDelta(cfg, dst), y);
    e := ErrorFor(cfg, macs, router, f, g);
  }

  function SentAs(delta: int, y: u16): u16 {
    (y as int + delta) % 0xffff
  }

  lemma MovedTo(x: u16, z: u16, delta: int, y: u16)
    requires x == SentAs(delta, y) && FieldMoved(SumNone, x, z, delta, false) && y != 0xffff
    ensures z == y
  {
    CongMod(y as int + delta);
    CongOffset(x, y as int + delta, 0 - delta);
    CongTrans(z, x as int - delta, y);
    CongUnique(z, y);
  }

  lemma SegmentLeaving(cfg: Config, dst: Addr4, x: u16, s: bytes, f: bytes) returns (g: bytes)
    requires |s| == 20 && GetLe16(s, 16) == x && Plain4(cfg, f, TCP, dst, s) && !Unmappable(dst)
    ensures Rel(cfg, SumNone, f, g) && |g| == 74
    ensures FieldMoved(SumNone, x, GetLe16(Out6(f, g), 16), EgressDelta(cfg, dst), false)
  {
    g := EgressTranslation(cfg, SumNone, f);
    EgressHeader(cfg, SumNone, f, g);
    assert AddrDelta(cfg, f) == EgressDelta(cfg, dst);
  }

  /** A Destination Unreachable that quotes all of `g`. */
  lemma ErrorFor(cfg: Config, macs: bytes, router: Addr6, f: bytes, g: bytes) returns (e: bytes)
    requires |macs| == 12 && Rel(cfg, SumNone, f, g) && |g| == 74 && Proto4(f) == TCP && !IsFrag4(f)
    ensures ErrorAbout(cfg, SumNone, f, g, e, 60, 63) && Decision6(cfg, e) == Translate
  {
    OnWireIsRel(cfg, SumNone, f, g);
    var hdr: bytes := [1, 0, 0, 0, 0, 0, 0, 0];
    var rest := hdr + Quote(g, 60, 63);
    e := Frame6(cfg, macs, ICMPV6, router, rest);
    Frame6Reads(cfg, macs, ICMPV6, router, rest);
    assert rest[8..] == Quote(g, 60, 63);
    assert rest[0] == 1;
    ErrorAccepted(cfg, SumNone, f, g, e, 60, 63);
  }

  /** A checksum that went out as zero is not moved back, although it was neither 0 nor 0xffff. */
  lemma ZeroChecksumStays(cfg: Config, macs: bytes, dst: Addr4, router: Addr6)
    returns (x: u16, s: bytes, f: bytes, g: bytes, e: bytes, h: bytes)
    requires |macs| == 12 && !Unmappable(dst) && EgressDelta(cfg, dst) % 0xffff != 0
    ensures QuotedAs(cfg, dst, x, s, f, g, e, 0) && Rel6(cfg, SumNone, e, h, true)
    ensures |h| == 82 && GetLe16(h[62..], 16) == 0 && 0 < x < 0xffff
  {
    x, s, f, g, e := QuotedSegment(cfg, macs, dst, router, 0);
    h := ZeroQuoted(cfg, dst, x, s, f, g, e);
  }

  lemma ZeroQuoted(cfg: Config, dst: Addr4, x: u16, s: bytes, f: bytes, g: bytes, e: bytes) returns (h: bytes)
    requires QuotedAs(cfg, dst, x, s, f, g, e, 0)
    ensures Rel6(cfg, SumNone, e, h, true) && |h| == 82 && GetLe16(h[62..], 16) == 0
  {
    h := IngressTranslation(cfg, SumNone, e);
    QuotedTransportReturns(cfg, SumNone, SumNone, f, g, e, h, 60, 63);
  }

  /** A carry is lost: the segment went out with checksum 1. */
  lemma CarryIsLost(cfg: Config, macs: bytes, dst: Addr4, router: Addr6)
    returns (x: u16, s: bytes, f: bytes, g: bytes, e: bytes, h: bytes)
    requires |macs| == 12 && !Unmappable(dst) && Rep(0 - EgressDelta(cfg, dst)) > 1
    ensures QuotedAs(cfg, dst, x, s, f, g, e, 1) && Rel6(cfg, SumNone, e, h, true)
    ensures HasField(f) && !EmbeddedReturned(SumNone, f, h)
  {
    x, s, f, g, e := QuotedSegment(cfg, macs, dst, router, 1);
    h := LosesCarry(cfg, dst, x, s, f, g, e);
  }

  lemma LosesCarry(cfg: Config, dst: Addr4, x: u16, s: bytes, f: bytes, g: bytes, e: bytes) returns (h: bytes)
    requires QuotedAs(cfg, dst, x, s, f, g, e, 1) && Rep(0 - EgressDelta(cfg, dst)) > 1
    ensures HasField(f) && Rel6(cfg, SumNone, e, h, true) && !EmbeddedReturned(SumNone, f, h)
  {
    PlainSegment(cfg, dst, s, f, g);
    h := LosesCarryFrom(cfg, f, g, e);
  }

  lemma LosesCarryFrom(cfg: Config, f: bytes, g: bytes, e: bytes) returns (h: bytes)
    requires HasField(f) && Proto4(f) == TCP && !IsFrag4(f)
    requires ErrorAbout(cfg, SumNone, f, g, e, 60, 63) && Decision6(cfg, e) == Translate
    requires OutField(f, g) != 0 && Rep(0 - OutDelta(cfg, f)) > OutField(f, g) as int
    ensures Rel6(cfg, SumNone, e, h, true) && !EmbeddedReturned(SumNone, f, h)
  {
    QuotedChecksumReturnsExactly(cfg, SumNone, SumNone, f, g, e, 60, 63);
    h :| Rel6(cfg, SumNone, e, h, true) && !EmbeddedReturned(SumNone, f, h);
  }

  lemma PlainSegment(cfg: Config, dst: Addr4, s: bytes, f: bytes, g: bytes)
    requires |s| == 20 && Plain4(cfg, f, TCP, dst, s) && |g| == 74
    ensures HasField(f) && OutField(f, g) == GetLe16(Out6(f, g), 16) && OutDelta(cfg, f) == EgressDelta(cfg, dst)
  {
  }

  // ---- a protocol number that means something else in IPv6

  /** Protocol 58 goes out as ICMPv6; mirrored, it comes back as ICMP. */
  lemma ProtocolComesBackChanged(cfg: Config, macs: bytes, dst: Addr4) returns (f: bytes, g: bytes, h: bytes)
    requires |macs| == 12 && !Unmappable(dst)
    ensures Rel(cfg, SumNone, f, g) && |g| == 62 && Rel6(cfg, SumNone, Reply(g), h, true)
    ensures Proto4(f) == ICMPV6 && |h| >= 34 && Proto4(h) == ICMP
  {
    var rest: bytes := [129, 0, 0, 0, 0, 0, 0, 0];
    f := Frame4(cfg, macs, ICMPV6, dst, rest);
    Frame4Reads(cfg, macs, ICMPV6, dst, rest);
    g := EgressTranslation(cfg, SumNone, f);
    RelReads(cfg, SumNone, f, g);
    assert Out6(f, g) == rest;
    h := MirroredIcmp(cfg, f, g);
  }

  lemma MirroredIcmp(cfg: Config, f: bytes, g: bytes) returns (h: bytes)
    requires Headed(cfg, f, g) && |g| == 62 && Proto4(f) == ICMPV6 && !IsFrag4(f) && Out6(f, g)[0] == 129
    ensures Rel6(cfg, SumNone, Reply(g), h, true) && |h| >= 34 && Proto4(h) == ICMP
  {
    ReplyFields(cfg, f, g);
    assert Rest6(Reply(g)) == Out6(f, g);
    h := IngressTranslation(cfg, SumNone, Reply(g));
    IngressHeader(cfg, SumNone, Reply(g), h, true);
  }

  // ---- options

  /** A frame whose only option, a record route, claims 40 bytes of the four there are. */
  function Overrunning(cfg: Config, macs: bytes, dst: Addr4): bytes
    requires |macs| == 12
  {
    macs + ETHER_IP4 + [0x46, 0, 0, 24, 0, 0, 0x40, 0, 64, SCTP, 0, 0] + cfg.pod4 + dst + [7, 40, 4, 0]
  }

  lemma OverrunLeaves(cfg: Config, mode: Mode, macs: bytes, dst: Addr4) returns (g: bytes)
    requires |macs| == 12 && !Unmappable(dst)
    ensures Rel(cfg, mode, Overrunning(cfg, macs, dst), g)
  {
    var f := Overrunning(cfg, macs, dst);
    assert Src4(f) == cfg.pod4 && Dst4(f) == dst;
    assert f[34..38] == [7, 40, 4, 0];
    Options.WalkIsAreaWalk(f, 34, 4, 0);
    Options.OverrunHappens();
    g := EgressTranslation(cfg, mode, f);
  }

  // ---- a fragment within the route MTU

  /** The first fragment of something, as large as the route MTU of the link allows. */
  ghost function FullFragment(cfg: Config, macs: bytes, dst: Addr4, size: nat): bytes
    requires |macs| == 12 && size >= 20
  {
    macs + ETHER_IP4 + Ip4HdrSummed(0, size, 1, IP_MF, 64, SCTP, cfg.pod4, dst) + seq(size - 20, _ => 0)
  }

  lemma FragmentMissesLink(cfg: Config, mode: Mode, macs: bytes, dst: Addr4, linkMtu: nat) returns (g: bytes)
    requires |macs| == 12 && !Unmappable(dst) && 40 <= linkMtu <= 0xffff
    ensures var f := FullFragment(cfg, macs, dst, Netns.RouteMtu(linkMtu));
            Rel(cfg, mode, f, g) && TotLen(f) as int == Netns.RouteMtu(linkMtu) && |g| - 14 == linkMtu + 8
  {
    var size := Netns.RouteMtu(linkMtu);
    var rest: bytes := seq(size - 20, _ => 0);
    var f := FullFragment(cfg, macs, dst, size);
    Ip4HdrReads(macs + ETHER_IP4, 0, size, 1, IP_MF, 64, SCTP, cfg.pod4, dst, rest);
    g := EgressTranslation(cfg, mode, f);
    EgressHeader(cfg, mode, f, g);
  }

  // ---- errors

  /** An error that quotes an IPv6 header of the pod with the given length and next header, and what
      follows; the payload length of the error itself covers `claimed` bytes. */
  function ErrorFrame(cfg: Config, macs: bytes, router: Addr6, dst: Addr4, check: bytes, plen: nat, nh: byte,
                      tail: bytes, claimed: nat): bytes
    requires |macs| == 12 && |check| == 2
  {
    macs + ETHER_IP6 + Ip6Hdr(0, claimed, ICMPV6, 64, router, cfg.pod6)
    + ErrorMessage(cfg, dst, check, plen, nh, tail)
  }

  function ErrorMessage(cfg: Config, dst: Addr4, check: bytes, plen: nat, nh: byte, tail: bytes): bytes
    requires |check| == 2
  {
    [1, 0] + check + [0, 0, 0, 0] + Ip6Hdr(0, plen, nh, 63, cfg.pod6, Mapped(cfg, dst)) + tail
  }

  ghost predicate UnreachableFrom(cfg: Config, f: bytes, router: Addr6, claimed: nat, a: bytes) {
    && |f| == 54 + |a| && |a| >= 48 && Version6(f) == 6 && PayloadLen(f) as int == claimed && Nh6(f) == ICMPV6
    && Src6(f) == router && Dst6(f) == cfg.pod6 && Rest6(f) == a && L4Len6(f) == claimed
  }

  lemma ErrorFrameReads(cfg: Config, macs: bytes, router: Addr6, dst: Addr4, check: bytes, plen: nat, nh: byte,
                        tail: bytes, claimed: nat)
    requires |macs| == 12 && |check| == 2 && claimed <= 0xffff
    ensures UnreachableFrom(cfg, ErrorFrame(cfg, macs, router, dst, check, plen, nh, tail, claimed), router, claimed,
                            ErrorMessage(cfg, dst, check, plen, nh, tail))
  {
    Ip6HdrReads(macs + ETHER_IP6, 0, claimed, ICMPV6, 64, router, cfg.pod6,
                ErrorMessage(cfg, dst, check, plen, nh, tail));
  }

  /** The quoted header as the program reads it. */
  ghost predicate QuotesHeader(cfg: Config, a: bytes, dst: Addr4, plen: nat, nh: byte, tail: bytes) {
    && |a| == 48 + |tail| && a[0] == 1 && a[1] == 0 && QuotesOurFlow(cfg, a)
    && InPlen(a) as int == plen % 0x1_0000 && a[14] == nh && InDst(a) == Mapped(cfg, dst) && a[48..] == tail
  }

  lemma ErrorMessageReads(cfg: Config, dst: Addr4, check: bytes, plen: nat, nh: byte, tail: bytes)
    requires |check| == 2
    ensures QuotesHeader(cfg, ErrorMessage(cfg, dst, check, plen, nh, tail), dst, plen, nh, tail)
  {
    var a := ErrorMessage(cfg, dst, check, plen, nh, tail);
    var pre: bytes := [0, 0, 0, 0, 0, 0] + [1, 0] + check + [0, 0, 0, 0];
    var w := pre + Ip6Hdr(0, plen, nh, 63, cfg.pod6, Mapped(cfg, dst)) + tail;
    Ip6HdrReads(pre, 0, plen, nh, 63, cfg.pod6, Mapped(cfg, dst), tail);
    assert w == [0, 0, 0, 0, 0, 0] + a;
    assert forall i :: 0 <= i < |a| ==> a[i] == w[i + 6];
    assert a[16..32] == w[22..38] && a[32..48] == w[38..54] && a[48..] == w[54..];
    MappedIsInside(cfg, dst);
  }

  lemma UnreachableAccepted(cfg: Config, f: bytes, router: Addr6, claimed: nat, a: bytes, dst: Addr4, plen: nat,
                            nh: byte, tail: bytes)
    requires UnreachableFrom(cfg, f, router, claimed, a) && QuotesHeader(cfg, a, dst, plen, nh, tail)
    requires if nh == FRAGMENT then |tail| >= 8 && !IsExtHdr(tail[0]) && tail[0] != ICMPV6
             else !IsExtHdr(nh) && nh != ICMPV6
    ensures |f| >= 102 && IsError(f, a) && Decision6(cfg, f) == Translate
  {
    assert a == f[54..];
    assert nh == FRAGMENT ==> a[48] == tail[0];
  }

  /** A quoted fragment that claims less than its Fragment header: the embedded packet is said to be
      twelve bytes long. */
  lemma EmbeddedLengthTooShort(cfg: Config, mode: Mode, macs: bytes, router: Addr6, dst: Addr4)
    returns (f: bytes, g: bytes)
    requires |macs| == 12
    ensures Rel6(cfg, mode, f, g, true) && IsError(f, Rest6(f)) && |g| >= 62 && GetBe16(g, 44) == 12
  {
    var tail := FragHdr(SCTP, 0, false, 0);
    var a := ErrorMessage(cfg, dst, [0, 0], 0, FRAGMENT, tail);
    f := ErrorFrame(cfg, macs, router, dst, [0, 0], 0, FRAGMENT, tail, 56);
    ErrorFrameReads(cfg, macs, router, dst, [0, 0], 0, FRAGMENT, tail, 56);
    ErrorMessageReads(cfg, dst, [0, 0], 0, FRAGMENT, tail);
    assert tail[0] == SCTP;
    UnreachableAccepted(cfg, f, router, 56, a, dst, 0, FRAGMENT, tail);
    g := ShortEmbedded(cfg, mode, f, a);
  }

  lemma ShortEmbedded(cfg: Config, mode: Mode, f: bytes, a: bytes) returns (g: bytes)
    requires |f| >= 62 && Decision6(cfg, f) == Translate && a == Rest6(f) && IsError(f, a)
    requires |a| >= 48 && QuotedLen(a) == -8
    ensures Rel6(cfg, mode, f, g, true) && |g| >= 62 && GetBe16(g, 44) == 12
  {
    g := IngressTranslation(cfg, mode, f);
    EmbeddedHeader(cfg, mode, f, g, true);
    InnerLength(cfg, a);
    EmbeddedWord(g, InnerHdr(cfg, a));
  }

  /** A right error whose payload length ends with the quoted IPv6 header, in front of what looks
      like a TCP header: it comes out wrong. */
  lemma CutErrorArrivesWrong(cfg: Config, macs: bytes, router: Addr6, dst: Addr4) returns (f: bytes, g: bytes)
    requires |macs| == 12 && !Cong(EgressDelta(cfg, dst), 0)
    ensures Rel6(cfg, SumNone, f, g, true) && IsError(f, Rest6(f)) && L4Len6(f) == 48 <= |Rest6(f)| && |g| >= 62
    ensures Verifies(IcmpPseudo(f), Rest6(f)[..48]) && !Verifies([], g[34..62])
  {
    var p6 := Pseudo6(router, cfg.pod6, ICMPV6, 48);
    var bare := ErrorMessage(cfg, dst, [0, 0], 20, TCP, []);
    var c := Csum(Le(p6) + Le(bare));
    var tail := Segment(0xffff);
    var a := ErrorMessage(cfg, dst, Le16(c), 20, TCP, tail);
    f := ErrorFrame(cfg, macs, router, dst, Le16(c), 20, TCP, tail, 48);
    ErrorFrameReads(cfg, macs, router, dst, Le16(c), 20, TCP, tail, 48);
    ErrorMessageReads(cfg, dst, Le16(c), 20, TCP, tail);
    UnreachableAccepted(cfg, f, router, 48, a, dst, 20, TCP, tail);
    Pseudo6Sum(router, cfg.pod6, ICMPV6, 48);
    MessageVerifies(cfg, p6, dst, c, a[..48]);
    g := IngressTranslation(cfg, SumNone, f);
    CutGoesWrong(cfg, f, g, dst, a, tail);
  }

  lemma MessageVerifies(cfg: Config, p6: bytes, dst: Addr4, c: u16, m: bytes)
    requires m == ErrorMessage(cfg, dst, Le16(c), 20, TCP, [])
    requires IsCsum(c, Le(p6) + Le(ErrorMessage(cfg, dst, [0, 0], 20, TCP, []))) && Le(p6) > 0
    ensures Verifies(p6, m)
  {
    var bare := ErrorMessage(cfg, dst, [0, 0], 20, TCP, []);
    assert m == Splice(bare, 2, Le16(c)) && GetLe16(bare, 2) == 0;
    LeField(bare, 2, c);
    CongOffset(c, 0 - (Le(p6) + Le(bare)), Le(p6) + Le(bare));
    VerifiesSpec(p6, m);
  }

  lemma CutGoesWrong(cfg: Config, f: bytes, g: bytes, dst: Addr4, a: bytes, tail: bytes)
    requires Rel6(cfg, SumNone, f, g, true) && a == Rest6(f) && IsError(f, a) && L4Len6(f) == 48
    requires QuotesHeader(cfg, a, dst, 20, TCP, tail) && |tail| == 20 && GetLe16(tail, 16) == 0xffff
    requires Verifies(IcmpPseudo(f), a[..48]) && !Cong(EgressDelta(cfg, dst), 0)
    ensures |g| >= 62 && !Verifies([], g[34..62])
  {
    SegmentBehind(cfg, a, dst, tail);
    CutBeforeField(cfg, SumNone, f, g, 0);
    VerifiesSpec(IcmpPseudo(f), a[..48]);
    VerifiesSpec([], g[34..62]);
    OtherClass(Le(g[34..62]), Residual(IcmpPseudo(f), a[..48]));
  }

  lemma SegmentBehind(cfg: Config, a: bytes, dst: Addr4, tail: bytes)
    requires QuotesHeader(cfg, a, dst, 20, TCP, tail) && |tail| == 20 && GetLe16(tail, 16) == 0xffff
    requires !Cong(EgressDelta(cfg, dst), 0)
    ensures InComplete(a) && InHdrEnd(a) == 48 && Patches(a) && PatchOffset(a) == 16
    ensures Rep(PatchDelta(cfg, a)) <= GetLe16(Quoted(a), 16) as int && !Cong(CutDelta(cfg, a, 0), 0)
  {
    assert Quoted(a) == tail && QuotesChecksum(a) && !QuotesEcho(a);
    assert Mapped(cfg, dst)[12..] == dst;
    assert PatchDelta(cfg, a) == 0 - EgressDelta(cfg, dst);
    NonZero(EgressDelta(cfg, dst));
  }

  lemma NonZero(x: int)
    requires !Cong(x, 0)
    ensures !Cong(0 - x, 0)
  {
    if Cong(0 - x, 0) {
      CongOffset(0 - x, 0, x);
      CongSym(0, x);
    }
  }

  lemma OtherClass(x: int, y: int)
    requires !Cong(x, y) && Cong(y, 0)
    ensures !Cong(x, 0)
  {
    if Cong(x, 0) {
      CongSym(y, 0);
      CongTrans(x, 0, y);
    }
  }
}
