/** What `clat_egress` must do with a frame: the verdict it owes every IPv4 frame when no helper
    refuses, and the relation between an accepted frame and its translation. */
module EgressSpec {
  import opened Bytes
  import opened Checksum
  import opened Headers
  import opened Kernel
  import opened Counters
  import Options
  import UdpChecksum

  const ICMP_ECHO: byte := 8
  const ICMP_ECHOREPLY: byte := 0
  const ICMP6_ECHO: byte := 128
  const ICMP6_ECHOREPLY: byte := 129

  function NextHeader(proto: byte): byte {
    if proto == ICMP then ICMPV6 else proto
  }

  /** Multicast and limited broadcast have no IPv6 counterpart. */
  predicate Unmappable(a: Addr4) {
    a[0] / 16 == 14 || a == [255, 255, 255, 255]
  }

  /** Header checks up to the option list. */
  predicate Sane(cfg: Config, f: bytes) {
    && Has4(f) && Version(f) == 4 && 20 <= Ihl(f) <= TotLen(f)
    && Src4(f) == cfg.pod4 && !Unmappable(Dst4(f))
  }

  /** Transport length claimed by the header. */
  function L4Len(f: bytes): nat
    requires Has4(f) && Ihl(f) <= TotLen(f)
  {
    TotLen(f) as int - Ihl(f)
  }

  /** The IPv4 pseudo-header sum is a ones'-complement zero. */
  ghost predicate PseudoIsZero(f: bytes)
    requires Has4(f) && Ihl(f) <= TotLen(f)
  {
    Cong(Le(Pseudo4(Src4(f), Dst4(f), UDP, L4Len(f))), 0)
  }

  /** The verdict on the transport part, `a` being everything behind the IPv4 header. */
  ghost function L4Decision(f: bytes, a: bytes): Outcome
    requires Has4(f) && Ihl(f) <= TotLen(f)
  {
    if Off4(f) != 0 then Translate
    else if Proto4(f) == TCP then
      if |a| < 18 then Drop(EgressHelper) else Translate
    else if Proto4(f) == UDP then
      if |a| < 8 then Drop(EgressTruncated)
      else if GetLe16(a, 6) != 0 || PseudoIsZero(f) then Translate
      else if IsFrag4(f) then Drop(EgressFragNoCsum)
      else if L4Len(f) > 10240 || L4Len(f) > |a| then Drop(EgressTooBig)
      else Translate
    else if Proto4(f) == ICMP then
      if |a| < 2 then Drop(EgressTruncated)
      else if a[0] != ICMP_ECHO && a[0] != ICMP_ECHOREPLY then Drop(EgressIcmpUnsupported)
      else if |a| < 4 then Drop(EgressHelper)
      else Translate
    else Translate
  }

  /** The verdict on a frame whose Ethernet type says IPv4. */
  ghost function Decision(cfg: Config, f: bytes): Outcome {
    if !Has4(f) || Version(f) != 4 || Ihl(f) < 20 then Drop(EgressTruncated)
    else if Src4(f) != cfg.pod4 then Drop(EgressBadSrc)
    else if Unmappable(Dst4(f)) then Drop(EgressMcast)
    else if TotLen(f) < Ihl(f) then Drop(EgressTruncated)
    else if IsFrag4(f) && Proto4(f) == ICMP then Drop(EgressFragNoCsum)
    else if Ihl(f) > 20 && Options.Walk(f, 34, Ihl(f) - 20, 0) then Drop(EgressSrcRoute)
    else if 14 + Ihl(f) > |f| then Drop(EgressHelper)
    else L4Decision(f, Rest4(f))
  }

  /** MAC header, IPv6 header and, for a fragment, Fragment header of the translation. */
  function Head(cfg: Config, f: bytes): (h: bytes)
    requires Has4(f) && Ihl(f) <= TotLen(f)
    ensures |h| == if IsFrag4(f) then 62 else 54
  {
    var nh := NextHeader(Proto4(f));
    var dst := Mapped(cfg, Dst4(f));
    if IsFrag4(f) then
      f[..12] + ETHER_IP6 + Ip6Hdr(Tos4(f), L4Len(f) + 8, FRAGMENT, Ttl4(f), cfg.pod6, dst)
      + FragHdr(nh, Off4(f), More4(f), Id4(f))
    else
      f[..12] + ETHER_IP6 + Ip6Hdr(Tos4(f), L4Len(f), nh, Ttl4(f), cfg.pod6, dst)
  }

  /** How far the pseudo-header sum moves when only the addresses change family. */
  function AddrDelta(cfg: Config, f: bytes): int
    requires Has4(f)
  {
    Le(cfg.pod6 + Mapped(cfg, Dst4(f))) - Le(cfg.pod4 + Dst4(f))
  }

  /** `b` is `a` with the 16-bit field at `off` moved by `delta` and nothing else changed. */
  ghost predicate FieldPatched(mode: Mode, a: bytes, b: bytes, off: nat, delta: int, mangled: bool) {
    && |b| == |a| && off + 2 <= |a|
    && b == Splice(a, off, Le16(GetLe16(b, off)))
    && FieldMoved(mode, GetLe16(a, off), GetLe16(b, off), delta, mangled)
  }

  function EchoType6(t4: byte): byte {
    if t4 == ICMP_ECHO then ICMP6_ECHO else ICMP6_ECHOREPLY
  }

  /** What an ICMP echo gains: a pseudo-header and a new type byte. */
  function EchoDelta(cfg: Config, f: bytes, t4: byte): int
    requires Has4(f) && Ihl(f) <= TotLen(f)
  {
    Le(Pseudo6(cfg.pod6, Mapped(cfg, Dst4(f)), ICMPV6, L4Len(f))) + EchoType6(t4) as int - t4 as int
  }

  /** The transport part `b` of the translation of a frame with transport part `a`. */
  ghost predicate L4Rel(cfg: Config, mode: Mode, f: bytes, a: bytes, b: bytes)
    requires Has4(f) && Ihl(f) <= TotLen(f) && L4Decision(f, a) == Translate
  {
    if Off4(f) != 0 then b == a
    else if Proto4(f) == TCP then FieldPatched(mode, a, b, 16, AddrDelta(cfg, f), false)
    else if Proto4(f) == UDP then
      if GetLe16(a, 6) != 0 || PseudoIsZero(f) then
        FieldPatched(mode, a, b, 6, AddrDelta(cfg, f), true)
      else
        b == Splice(a, 6, Le16(UdpChecksum.MangledCsum(
                                 Le(Pseudo6(cfg.pod6, Mapped(cfg, Dst4(f)), UDP, L4Len(f)))
                                 + Le(a[..L4Len(f)]))))
    else if Proto4(f) == ICMP then
      FieldPatched(mode, a[0 := EchoType6(a[0])], b, 2, EchoDelta(cfg, f, a[0]), false)
    else b == a
  }

  /** `g` is a complete translation of `f`. */
  ghost predicate Rel(cfg: Config, mode: Mode, f: bytes, g: bytes) {
    && Has4(f) && 20 <= Ihl(f) <= TotLen(f) && 14 + Ihl(f) <= |f| && Src4(f) == cfg.pod4
    && Decision(cfg, f) == Translate
    && |g| >= |Head(cfg, f)|
    && g[..|Head(cfg, f)|] == Head(cfg, f)
    && L4Rel(cfg, mode, f, Rest4(f), g[|Head(cfg, f)|..])
  }
}
