/** What a reader of the translated frame can rely on, for every frame `clat_egress` accepts. */
module EgressTheorems {
  import opened Bytes
  import opened Checksum
  import opened Headers
  import opened Kernel
  import opened Counters
  import opened EgressSpec
  import UdpChecksum

  // ---- headers and lengths

  /** Every header field of the translation, read back from its bytes. The payload length never
      overflows, and it matches the frame whenever the IPv4 length did. */
  lemma EgressHeader(cfg: Config, mode: Mode, f: bytes, g: bytes)
    requires Rel(cfg, mode, f, g)
    ensures Has6(g) && g[..12] == f[..12] && EtherType(g) == ETHER_IP6
    ensures Version6(g) == 6 && Tc6(g) == Tos4(f) && Hop6(g) == Ttl4(f)
    ensures Src6(g) == cfg.pod6 && Dst6(g) == Mapped(cfg, Dst4(f))
    ensures PayloadLen(g) == L4Len(f) + if IsFrag4(f) then 8 else 0
    ensures IsFrag4(f) ==> |g| >= 62 && IsFrag6(g) && g[54] == NextHeader(Proto4(f)) && Off6(g) == Off4(f)
                           && More6(g) == More4(f) && Id6(g) == Id4(f)
    ensures !IsFrag4(f) ==> Nh6(g) == NextHeader(Proto4(f))
    ensures |g| == |f| - Ihl(f) + if IsFrag4(f) then 48 else 40
    ensures |f| == 14 + TotLen(f) as int ==> |g| == 54 + PayloadLen(g) as int
  {
    var rest := g[|Head(cfg, f)|..];
    L4RelKeepsLength(cfg, mode, f, Rest4(f), rest);
    assert g == Head(cfg, f) + rest;
    if IsFrag4(f) {
      FragmentHeadReads(cfg, f, rest);
    } else {
      HeadReads(cfg, f, rest);
    }
  }

  lemma HeadReads(cfg: Config, f: bytes, rest: bytes)
    requires Has4(f) && 20 <= Ihl(f) <= TotLen(f) && !IsFrag4(f)
    ensures var g := Head(cfg, f) + rest;
            && g[..12] == f[..12] && EtherType(g) == ETHER_IP6
            && Version6(g) == 6 && Tc6(g) == Tos4(f) && Hop6(g) == Ttl4(f)
            && Src6(g) == cfg.pod6 && Dst6(g) == Mapped(cfg, Dst4(f))
            && PayloadLen(g) == L4Len(f) && Nh6(g) == NextHeader(Proto4(f))
  {
    var g := Head(cfg, f) + rest;
    var pre := f[..12] + ETHER_IP6;
    Ip6HdrReads(pre, Tos4(f), L4Len(f), NextHeader(Proto4(f)), Ttl4(f), cfg.pod6, Mapped(cfg, Dst4(f)), rest);
    assert g[..12] == g[..14][..12] && EtherType(g) == g[..14][12..];
  }

  lemma FragmentHeadReads(cfg: Config, f: bytes, rest: bytes)
    requires Has4(f) && 20 <= Ihl(f) <= TotLen(f) && IsFrag4(f)
    ensures var g := Head(cfg, f) + rest;
            && g[..12] == f[..12] && EtherType(g) == ETHER_IP6
            && Version6(g) == 6 && Tc6(g) == Tos4(f) && Hop6(g) == Ttl4(f)
            && Src6(g) == cfg.pod6 && Dst6(g) == Mapped(cfg, Dst4(f))
            && PayloadLen(g) == L4Len(f) + 8 && IsFrag6(g) && g[54] == NextHeader(Proto4(f))
            && Off6(g) == Off4(f) && More6(g) == More4(f) && Id6(g) == Id4(f)
  {
    var pre := f[..12] + ETHER_IP6;
    var h6 := Ip6Hdr(Tos4(f), L4Len(f) + 8, FRAGMENT, Ttl4(f), cfg.pod6, Mapped(cfg, Dst4(f)));
    var fh := FragHdr(NextHeader(Proto4(f)), Off4(f), More4(f), Id4(f));
    var g := pre + h6 + fh + rest;
    assert g == pre + h6 + (fh + rest);
    Ip6HdrReads(pre, Tos4(f), L4Len(f) + 8, FRAGMENT, Ttl4(f), cfg.pod6, Mapped(cfg, Dst4(f)), fh + rest);
    FragHdrReads(pre + h6, NextHeader(Proto4(f)), Off4(f), More4(f), Id4(f), rest);
    MacReads(pre, g);
  }

  lemma MacReads(pre: bytes, g: bytes)
    requires |pre| == 14 <= |g| && g[..14] == pre
    ensures g[..12] == pre[..12] && EtherType(g) == pre[12..]
  {
    SliceOfHead(g, 14, 0, 12);
    SliceOfHead(g, 14, 12, 14);
  }

  lemma L4RelKeepsLength(cfg: Config, mode: Mode, f: bytes, a: bytes, b: bytes)
    requires Has4(f) && Ihl(f) <= TotLen(f) && L4Decision(f, a) == Translate && L4Rel(cfg, mode, f, a, b)
    ensures |b| == |a|
  {
  }

  /** The transport bytes of the translation, behind its headers. */
  function Out6(f: bytes, g: bytes): bytes
    requires Has4(f) && |g| >= if IsFrag4(f) then 62 else 54
  {
    g[if IsFrag4(f) then 62 else 54..]
  }

  /** Bytes of the transport part a translation may change: the checksum field and, for an echo,
      the type byte. */
  predicate Mutable(proto: byte, i: int) {
    || (proto == TCP && 16 <= i < 18)
    || (proto == UDP && 6 <= i < 8)
    || (proto == ICMP && (i == 0 || 2 <= i < 4))
  }

  /** Every other transport byte is carried over in order, and a fragment that does not start the
      datagram is carried over whole. */
  lemma EgressCarriesBytes(cfg: Config, mode: Mode, f: bytes, g: bytes, i: nat)
    requires Rel(cfg, mode, f, g) && i < |Rest4(f)|
    requires Off4(f) != 0 || !Mutable(Proto4(f), i)
    ensures |g| == |f| - Ihl(f) + (if IsFrag4(f) then 48 else 40) && Out6(f, g)[i] == Rest4(f)[i]
  {
    EgressHeader(cfg, mode, f, g);
  }

  // ---- residuals

  /** How far the pseudo-header sum moves on egress to `dst`. */
  function EgressDelta(cfg: Config, dst: Addr4): int {
    Le(cfg.pod6 + Mapped(cfg, dst)) - Le(cfg.pod4 + dst)
  }

  /** Patching a complemented field takes `delta` off the sum of every window that holds it. */
  lemma PatchResidual(mode: Mode, a: bytes, b: bytes, off: nat, delta: int, mangled: bool, n: nat)
    requires FieldPatched(mode, a, b, off, delta, mangled) && !mode.SumPartial?
    requires off % 2 == 0 && off + 2 <= n <= |a|
    ensures Cong(Le(b[..n]) + delta, Le(a[..n]))
  {
    var v: u16 := GetLe16(b, off);
    var w: int := GetLe16(a, off);
    assert Splice(a, off, Le16(v))[..n] == Splice(a[..n], off, Le16(v));
    assert GetLe16(a[..n], off) == w;
    LeField(a[..n], off, v);
    CongOffset(v, w - delta, Le(a[..n]) - w + delta);
  }

  /** The transport checksum in its own family: TCP, and UDP with a checksum. */
  predicate Checksummed(f: bytes)
    requires Has4(f) && 14 + Ihl(f) <= |f|
  {
    || (Proto4(f) == TCP && |Rest4(f)| >= 18)
    || (Proto4(f) == UDP && |Rest4(f)| >= 8 && GetLe16(Rest4(f), 6) != 0)
  }

  function FieldOffset(proto: byte): nat {
    if proto == TCP then 16 else if proto == UDP then 6 else 2
  }

  /** The residual of the whole message: what the reference arithmetic would fold. */
  function Residual(pseudo: bytes, message: bytes): nat {
    Le(pseudo) + Le(message)
  }

  /** Unfragmented TCP and checksummed UDP: the residual survives, so the output verifies exactly
      when the input did. */
  lemma EgressTransportResidual(cfg: Config, mode: Mode, f: bytes, g: bytes)
    requires Rel(cfg, mode, f, g) && !mode.SumPartial? && !IsFrag4(f) && Checksummed(f)
    requires FieldOffset(Proto4(f)) + 2 <= L4Len(f) <= |Rest4(f)|
    ensures |g| >= 54 + L4Len(f)
    ensures var n := L4Len(f);
            var p4 := Pseudo4(Src4(f), Dst4(f), Proto4(f), n);
            var p6 := Pseudo6(Src6(g), Dst6(g), Nh6(g), n);
            && Cong(Residual(p6, g[54..54 + n]), Residual(p4, Rest4(f)[..n]))
            && (Verifies(p6, g[54..54 + n]) <==> Verifies(p4, Rest4(f)[..n]))
  {
    EgressHeader(cfg, mode, f, g);
    var n, dst := L4Len(f), Mapped(cfg, Dst4(f));
    assert g[54..][..n] == g[54..54 + n];
    PseudoPair(cfg.pod4, Dst4(f), cfg.pod6, dst, Proto4(f), n);
    PatchVerdict(mode, Rest4(f), g[54..], FieldOffset(Proto4(f)), AddrDelta(cfg, f), Proto4(f) == UDP, n,
                 Pseudo4(cfg.pod4, Dst4(f), Proto4(f), n), Pseudo6(cfg.pod6, dst, Proto4(f), n));
  }

  /** A field moved by the difference of two pseudo-headers carries the residual over. */
  lemma PatchVerdict(mode: Mode, a: bytes, b: bytes, off: nat, delta: int, mangled: bool, n: nat, p: bytes, q: bytes)
    requires FieldPatched(mode, a, b, off, delta, mangled) && !mode.SumPartial?
    requires off % 2 == 0 && off + 2 <= n <= |a|
    requires Le(q) - Le(p) == delta && Le(p) > 0 && Le(q) > 0
    ensures Cong(Residual(q, b[..n]), Residual(p, a[..n]))
    ensures Verifies(q, b[..n]) <==> Verifies(p, a[..n])
  {
    PatchResidual(mode, a, b, off, delta, mangled, n);
    CongOffset(Le(b[..n]) + delta, Le(a[..n]), Le(p));
    VerdictFollows(p, a[..n], q, b[..n]);
  }

  /** Equal residuals over non-empty pseudo-headers give equal verdicts. */
  lemma VerdictFollows(p: bytes, a: bytes, q: bytes, b: bytes)
    requires Cong(Residual(q, b), Residual(p, a)) && Le(p) > 0 && Le(q) > 0
    ensures Verifies(q, b) <==> Verifies(p, a)
  {
    VerifiesSpec(p, a);
    VerifiesSpec(q, b);
    ZeroFollows(Residual(q, b), Residual(p, a));
  }

  lemma ZeroFollows(x: int, y: int)
    requires Cong(x, y)
    ensures Cong(x, 0) <==> Cong(y, 0)
  {
    CongSym(x, y);
    if Cong(y, 0) {
      CongTrans(x, y, 0);
    }
    if Cong(x, 0) {
      CongTrans(y, x, 0);
    }
  }

  /** A partial checksum field that held the IPv4 pseudo-header sum holds the IPv6 one. */
  lemma EgressPartial(cfg: Config, f: bytes, g: bytes)
    requires Rel(cfg, SumPartial, f, g) && Off4(f) == 0 && Checksummed(f)
    requires Cong(GetLe16(Rest4(f), FieldOffset(Proto4(f))),
                  Le(Pseudo4(Src4(f), Dst4(f), Proto4(f), L4Len(f))))
    ensures |g| == |f| - Ihl(f) + (if IsFrag4(f) then 48 else 40)
    ensures Cong(GetLe16(Out6(f, g), FieldOffset(Proto4(f))),
                 Le(Pseudo6(Src6(g), Dst6(g), Proto4(f), L4Len(f))))
  {
    EgressHeader(cfg, SumPartial, f, g);
    var off := FieldOffset(Proto4(f));
    PseudoPair(cfg.pod4, Dst4(f), cfg.pod6, Mapped(cfg, Dst4(f)), Proto4(f), L4Len(f));
    PartialMoves(GetLe16(Rest4(f), off), GetLe16(Out6(f, g), off), AddrDelta(cfg, f), Proto4(f) == UDP,
                 Le(Pseudo4(Src4(f), Dst4(f), Proto4(f), L4Len(f))));
  }

  lemma PartialMoves(old_: u16, new_: u16, delta: int, mangled: bool, p: int)
    requires FieldMoved(SumPartial, old_, new_, delta, mangled) && Cong(old_, p)
    ensures Cong(new_, p + delta)
  {
    CongOffset(old_, p, delta);
    CongTrans(new_, old_ as int + delta, p + delta);
  }

  /** ICMP echo: the message gains a pseudo-header and keeps its residual. The verdict is the
      same but for one message: all zeros, which IPv4 rejects and IPv6 accepts. */
  lemma EgressEchoResidual(cfg: Config, mode: Mode, f: bytes, g: bytes)
    requires Rel(cfg, mode, f, g) && !mode.SumPartial? && Proto4(f) == ICMP
    requires 4 <= L4Len(f) <= |Rest4(f)|
    ensures |g| >= 54 + L4Len(f)
    ensures var n := L4Len(f);
            var a := Rest4(f)[..n];
            var p6 := Pseudo6(Src6(g), Dst6(g), Nh6(g), n);
            && Cong(Residual(p6, g[54..54 + n]), Le(a))
            && (Verifies(p6, g[54..54 + n])
                <==> Verifies([], a) || (forall i :: 0 <= i < n ==> a[i] == 0))
  {
    EgressHeader(cfg, mode, f, g);
    var n, a := L4Len(f), Rest4(f);
    var p6 := Pseudo6(cfg.pod6, Mapped(cfg, Dst4(f)), ICMPV6, n);
    assert g[54..][..n] == g[54..54 + n];
    PseudoPair(cfg.pod4, Dst4(f), cfg.pod6, Mapped(cfg, Dst4(f)), ICMPV6, n);
    EchoResidual(mode, a, g[54..], n, EchoType6(a[0]), EchoDelta(cfg, f, a[0]), Le(p6));
    EchoVerdict(p6, g[54..][..n], a[..n]);
  }

  /** An echo whose type byte became `t` and whose checksum moved by `delta`. */
  lemma EchoResidual(mode: Mode, a: bytes, b: bytes, n: nat, t: byte, delta: int, p: int)
    requires |a| >= 1 && FieldPatched(mode, a[0 := t], b, 2, delta, false) && !mode.SumPartial?
    requires 4 <= n <= |a| && delta == p + t as int - a[0] as int
    ensures Cong(p + Le(b[..n]), Le(a[..n]))
  {
    PatchResidual(mode, a[0 := t], b, 2, delta, false, n);
    assert a[0 := t][..n] == a[..n][0 := t];
    LeFirstByte(a[..n], t);
    CongOffset(Le(b[..n]) + delta, Le(a[0 := t][..n]), a[0] as int - t as int);
  }

  lemma EchoVerdict(p6: bytes, b: bytes, a: bytes)
    requires Cong(Residual(p6, b), Le(a)) && Le(p6) > 0
    ensures Verifies(p6, b) <==> Verifies([], a) || (forall i :: 0 <= i < |a| ==> a[i] == 0)
  {
    VerifiesSpec(p6, b);
    VerifiesSpec([], a);
    ZeroFollows(Residual(p6, b), Le(a));
    SumZero(a, false);
    CongRefl(0);
  }

  // ---- UDP checksums

  /** Whatever the field held, no UDP header leaves with a zero checksum. */
  lemma EgressUdpNeverZero(cfg: Config, mode: Mode, f: bytes, g: bytes)
    requires Rel(cfg, mode, f, g) && Proto4(f) == UDP && Off4(f) == 0
    ensures |g| == |f| - Ihl(f) + (if IsFrag4(f) then 48 else 40) && |Out6(f, g)| >= 8
    ensures GetLe16(Out6(f, g), 6) != 0
  {
    EgressHeader(cfg, mode, f, g);
    var a, b := Rest4(f), Out6(f, g);
    if GetLe16(a, 6) == 0 && !PseudoIsZero(f) {
      var t := Le(Pseudo6(cfg.pod6, Mapped(cfg, Dst4(f)), UDP, L4Len(f))) + Le(a[..L4Len(f)]);
      UdpChecksum.MangledCsumSpec(t);
      assert GetLe16(b, 6) == UdpChecksum.MangledCsum(t);
    }
  }

  /** A datagram without a checksum, summed as a complete one. If the IPv4 pseudo-header sum is
      not zero the output verifies. If it is zero the field is taken for a partial one, and the
      output verifies exactly when the datagram bytes sum to zero. */
  lemma EgressUdpWithoutChecksum(cfg: Config, mode: Mode, f: bytes, g: bytes)
    requires Rel(cfg, mode, f, g) && !mode.SumPartial? && Proto4(f) == UDP && !IsFrag4(f)
    requires 8 <= L4Len(f) <= |Rest4(f)| && GetLe16(Rest4(f), 6) == 0
    ensures |g| >= 54 + L4Len(f)
    ensures Verifies(Pseudo6(Src6(g), Dst6(g), Nh6(g), L4Len(f)), g[54..54 + L4Len(f)])
            <==> !PseudoIsZero(f) || Cong(Le(Rest4(f)[..L4Len(f)]), 0)
  {
    EgressHeader(cfg, mode, f, g);
    var n := L4Len(f);
    var b := g[54..];
    assert b[..n] == g[54..54 + n];
    var p6 := Pseudo6(cfg.pod6, Mapped(cfg, Dst4(f)), UDP, n);
    PseudoPair(cfg.pod4, Dst4(f), cfg.pod6, Mapped(cfg, Dst4(f)), UDP, n);
    if PseudoIsZero(f) {
      UdpZeroPseudo(cfg, mode, f, b);
      ZeroFollows(Residual(p6, b[..n]), Le(Rest4(f)[..n]));
    } else {
      FullChecksumVerifies(p6, Rest4(f), b, n);
    }
    VerifiesSpec(p6, b[..n]);
  }

  /** The checksum such a datagram gets is the reference checksum, in network order. */
  lemma EgressUdpFullChecksum(cfg: Config, mode: Mode, f: bytes, g: bytes)
    requires Rel(cfg, mode, f, g) && Proto4(f) == UDP && !IsFrag4(f)
    requires 8 <= L4Len(f) <= |Rest4(f)| && GetLe16(Rest4(f), 6) == 0 && !PseudoIsZero(f)
    ensures |g| >= 62
    ensures var c := RefCsum(Sum16(Pseudo6(Src6(g), Dst6(g), Nh6(g), L4Len(f))) + Sum16(Rest4(f)[..L4Len(f)]));
            g[60..62] == Be16(if c == 0 then 0xffff else c)
  {
    EgressHeader(cfg, mode, f, g);
    var p6 := Pseudo6(cfg.pod6, Mapped(cfg, Dst4(f)), UDP, L4Len(f));
    assert g[54..][6..8] == g[60..62];
    PseudoPair(cfg.pod4, Dst4(f), cfg.pod6, Mapped(cfg, Dst4(f)), UDP, L4Len(f));
    FullChecksumVerifies(p6, Rest4(f), g[54..], L4Len(f));
    UdpChecksum.FullCsumIsReference(p6, Rest4(f)[..L4Len(f)]);
  }

  lemma UdpZeroPseudo(cfg: Config, mode: Mode, f: bytes, b: bytes)
    requires Has4(f) && 14 + Ihl(f) <= |f| && Ihl(f) <= TotLen(f) && Src4(f) == cfg.pod4
    requires !mode.SumPartial? && PseudoIsZero(f) && 8 <= L4Len(f) <= |Rest4(f)|
    requires FieldPatched(mode, Rest4(f), b, 6, AddrDelta(cfg, f), true)
    ensures Cong(Residual(Pseudo6(cfg.pod6, Mapped(cfg, Dst4(f)), UDP, L4Len(f)), b[..L4Len(f)]),
                 Le(Rest4(f)[..L4Len(f)]))
  {
    var n, dst := L4Len(f), Mapped(cfg, Dst4(f));
    var x, y := Le(Rest4(f)[..n]), Le(b[..n]);
    var p4 := Le(Pseudo4(cfg.pod4, Dst4(f), UDP, n));
    PatchResidual(mode, Rest4(f), b, 6, AddrDelta(cfg, f), true, n);
    PseudoPair(cfg.pod4, Dst4(f), cfg.pod6, dst, UDP, n);
    CongAdd(y + AddrDelta(cfg, f), x, p4, 0);
  }

  lemma FullChecksumVerifies(p6: bytes, a: bytes, b: bytes, n: nat)
    requires 8 <= n <= |a| && GetLe16(a, 6) == 0
    requires b == Splice(a, 6, Le16(UdpChecksum.MangledCsum(Le(p6) + Le(a[..n]))))
    ensures Cong(Residual(p6, b[..n]), 0)
    ensures b[6..8] == Le16(UdpChecksum.MangledCsum(Le(p6) + Le(a[..n])))
  {
    var t := Le(p6) + Le(a[..n]);
    var c := UdpChecksum.MangledCsum(t);
    UdpChecksum.MangledCsumSpec(t);
    assert b[..n] == Splice(a[..n], 6, Le16(c));
    assert GetLe16(a[..n], 6) == 0;
    LeField(a[..n], 6, c);
    CongOffset(c, 0 - t as int, t);
  }

  /** Under the partial reading the zero-sum branch is right: the field becomes the IPv6
      pseudo-header sum. */
  lemma EgressUdpZeroPseudoPartial(cfg: Config, f: bytes, g: bytes)
    requires Rel(cfg, SumPartial, f, g) && Proto4(f) == UDP && Off4(f) == 0
    requires GetLe16(Rest4(f), 6) == 0 && PseudoIsZero(f)
    ensures |g| == |f| - Ihl(f) + (if IsFrag4(f) then 48 else 40) && |Out6(f, g)| >= 8
    ensures Cong(GetLe16(Out6(f, g), 6), Le(Pseudo6(Src6(g), Dst6(g), UDP, L4Len(f))))
  {
    EgressHeader(cfg, SumPartial, f, g);
    var n := L4Len(f);
    PseudoPair(cfg.pod4, Dst4(f), cfg.pod6, Mapped(cfg, Dst4(f)), UDP, n);
    var p4 := Le(Pseudo4(Src4(f), Dst4(f), UDP, n));
    CongSym(p4, 0);
    PartialMoves(0, GetLe16(Out6(f, g), 6), AddrDelta(cfg, f), true, p4);
  }

  /** The transport part as if the pod had filled in the checksum egress computes for it: its own
      bytes, but for a UDP datagram that came without a checksum. */
  ghost function AsSent(f: bytes): (x: bytes)
    requires Has4(f) && 14 + Ihl(f) <= |f| && Ihl(f) <= TotLen(f)
    ensures |x| == |Rest4(f)|
  {
    var a := Rest4(f);
    if Proto4(f) == UDP && 8 <= |a| && GetLe16(a, 6) == 0 && !PseudoIsZero(f) && L4Len(f) <= |a| then
      Splice(a, 6, Le16(UdpChecksum.MangledCsum(FullSum4(f))))
    else a
  }

  lemma AsSentIsSent(f: bytes)
    requires Has4(f) && 14 + Ihl(f) <= |f| && Ihl(f) <= TotLen(f)
    ensures Checksummed(f) || Proto4(f) != UDP ==> AsSent(f) == Rest4(f)
    ensures Proto4(f) == UDP && |Rest4(f)| >= 8 && AsSent(f) != Rest4(f) ==> GetLe16(AsSent(f), 6) != 0
  {
    var a := Rest4(f);
    if Proto4(f) == UDP && 8 <= |a| && GetLe16(a, 6) == 0 && !PseudoIsZero(f) && L4Len(f) <= |a| {
      var t := Le(Pseudo4(Src4(f), Dst4(f), UDP, L4Len(f))) + Le(a[..L4Len(f)]);
      UdpChecksum.MangledCsumSpec(t);
      assert GetLe16(AsSent(f), 6) == UdpChecksum.MangledCsum(t);
    }
  }

  /** Seen so, every TCP and UDP translation is a patch by the difference of the addresses. */
  lemma OutIsPatched(cfg: Config, mode: Mode, f: bytes, g: bytes)
    requires Rel(cfg, mode, f, g) && Off4(f) == 0 && (Proto4(f) == TCP || Proto4(f) == UDP)
    requires mode.SumPartial? ==> Checksummed(f) || PseudoIsZero(f)
    ensures |g| == |f| - Ihl(f) + (if IsFrag4(f) then 48 else 40)
    ensures FieldPatched(mode, AsSent(f), Out6(f, g), FieldOffset(Proto4(f)), AddrDelta(cfg, f), Proto4(f) == UDP)
  {
    EgressHeader(cfg, mode, f, g);
    if Proto4(f) == UDP && GetLe16(Rest4(f), 6) == 0 && !PseudoIsZero(f) {
      AsSentFull(f);
      FullIsPatched(cfg, mode, f, Out6(f, g));
    }
  }

  lemma AsSentFull(f: bytes)
    requires Has4(f) && 14 + Ihl(f) <= |f| && Ihl(f) <= TotLen(f) && L4Len(f) <= |Rest4(f)|
    requires Proto4(f) == UDP && 8 <= |Rest4(f)| && GetLe16(Rest4(f), 6) == 0 && !PseudoIsZero(f)
    ensures AsSent(f) == Splice(Rest4(f), 6, Le16(UdpChecksum.MangledCsum(FullSum4(f))))
  {
  }

  lemma FullIsPatched(cfg: Config, mode: Mode, f: bytes, b: bytes)
    requires Has4(f) && 14 + Ihl(f) <= |f| && Ihl(f) <= TotLen(f) && Src4(f) == cfg.pod4 && !mode.SumPartial?
    requires 8 <= |Rest4(f)| && L4Len(f) <= |Rest4(f)|
    requires AsSent(f) == Splice(Rest4(f), 6, Le16(UdpChecksum.MangledCsum(FullSum4(f))))
    requires b == Splice(Rest4(f), 6, Le16(UdpChecksum.MangledCsum(FullSum6(cfg, f))))
    ensures FieldPatched(mode, AsSent(f), b, 6, AddrDelta(cfg, f), true)
  {
    FullFieldMoves(cfg, mode, f);
    SplicePair(mode, Rest4(f), 6, UdpChecksum.MangledCsum(FullSum4(f)), UdpChecksum.MangledCsum(FullSum6(cfg, f)),
               AddrDelta(cfg, f), true);
  }

  /** What the full checksum of a datagram covers, in either family. */
  function FullSum4(f: bytes): nat
    requires Has4(f) && 14 + Ihl(f) <= |f| && Ihl(f) <= TotLen(f) && L4Len(f) <= |Rest4(f)|
  {
    Le(Pseudo4(Src4(f), Dst4(f), UDP, L4Len(f))) + Le(Rest4(f)[..L4Len(f)])
  }

  function FullSum6(cfg: Config, f: bytes): nat
    requires Has4(f) && 14 + Ihl(f) <= |f| && Ihl(f) <= TotLen(f) && L4Len(f) <= |Rest4(f)|
  {
    Le(Pseudo6(cfg.pod6, Mapped(cfg, Dst4(f)), UDP, L4Len(f))) + Le(Rest4(f)[..L4Len(f)])
  }

  lemma FullFieldMoves(cfg: Config, mode: Mode, f: bytes)
    requires Has4(f) && 14 + Ihl(f) <= |f| && Ihl(f) <= TotLen(f) && Src4(f) == cfg.pod4 && !mode.SumPartial?
    requires L4Len(f) <= |Rest4(f)|
    ensures FieldMoved(mode, UdpChecksum.MangledCsum(FullSum4(f)), UdpChecksum.MangledCsum(FullSum6(cfg, f)),
                       AddrDelta(cfg, f), true)
  {
    PseudoPair(Src4(f), Dst4(f), cfg.pod6, Mapped(cfg, Dst4(f)), UDP, L4Len(f));
    FullMoves(FullSum4(f), FullSum6(cfg, f), AddrDelta(cfg, f));
  }

  /** Two values for one field, the second the first moved. */
  lemma SplicePair(mode: Mode, a: bytes, off: nat, v: u16, w: u16, delta: int, mangled: bool)
    requires off + 2 <= |a| && FieldMoved(mode, v, w, delta, mangled)
    ensures FieldPatched(mode, Splice(a, off, Le16(v)), Splice(a, off, Le16(w)), off, delta, mangled)
  {
    var x, y := Splice(a, off, Le16(v)), Splice(a, off, Le16(w));
    assert GetLe16(x, off) == v && GetLe16(y, off) == w;
    assert y == Splice(x, off, Le16(w));
  }

  lemma FullMoves(t4: nat, t6: nat, delta: int)
    requires t6 - t4 == delta
    ensures Cong(UdpChecksum.MangledCsum(t6), UdpChecksum.MangledCsum(t4) as int - delta)
    ensures UdpChecksum.MangledCsum(t6) != 0
  {
    UdpChecksum.MangledCsumSpec(t4);
    UdpChecksum.MangledCsumSpec(t6);
    var c4: int := UdpChecksum.MangledCsum(t4);
    CongOffset(c4, 0 - t4 as int, 0 - delta);
    CongSym(c4 - delta, 0 - t6 as int);
    CongTrans(UdpChecksum.MangledCsum(t6), 0 - t6 as int, c4 - delta);
  }

  // ---- the zero-sum branch can go wrong

  /** A ten-byte datagram without a checksum. */
  const SAMPLE: bytes := [0, 1, 0, 2, 0, 10, 0, 0, 1, 1]

  /** 192.0.0.2 to 10.100.53.126. */
  ghost function SampleFrame(macs: bytes): bytes
    requires |macs| == 12
  {
    macs + ETHER_IP4 + Ip4HdrSummed(0, 30, 0, IP_DF, 64, UDP, [192, 0, 0, 2], [10, 100, 53, 126]) + SAMPLE
  }

  lemma SampleReads(macs: bytes)
    requires |macs| == 12
    ensures IsSample(SampleFrame(macs))
  {
    Ip4HdrReads(macs + ETHER_IP4, 0, 30, 0, IP_DF, 64, UDP, [192, 0, 0, 2], [10, 100, 53, 126], SAMPLE);
  }

  lemma SamplePseudoSum()
    ensures Le(Pseudo4([192, 0, 0, 2], [10, 100, 53, 126], UDP, 10)) == 0xffff
  {
    Pseudo4Sum([192, 0, 0, 2], [10, 100, 53, 126], UDP, 10);
    LeConcat([192, 0, 0, 2], [10, 100, 53, 126]);
    Le4(192, 0, 0, 2);
    Le4(10, 100, 53, 126);
    Le2(Be16(10));
  }

  lemma SampleSum()
    ensures Le(SAMPLE) == 3585
  {
    assert SAMPLE == [0, 1, 0, 2] + [0, 10, 0, 0] + [1, 1];
    LeConcat3([0, 1, 0, 2], [0, 10, 0, 0], [1, 1]);
    Le4(0, 1, 0, 2);
    Le4(0, 10, 0, 0);
    Le2([1, 1]);
  }

  predicate IsSample(f: bytes) {
    && Has4(f) && Version(f) == 4 && Ihl(f) == 20 && TotLen(f) == 30 && FragWord(f) == IP_DF
    && Proto4(f) == UDP && Src4(f) == [192, 0, 0, 2] && Dst4(f) == [10, 100, 53, 126]
    && Rest4(f) == SAMPLE
  }

  lemma SampleAccepted(cfg: Config, f: bytes)
    requires IsSample(f) && cfg.pod4 == [192, 0, 0, 2]
    ensures Decision(cfg, f) == Translate && PseudoIsZero(f)
  {
    SamplePseudoSum();
    CongMod(0xffff);
  }

  lemma SampleLeavesWrong(cfg: Config, f: bytes, g: bytes)
    requires IsSample(f) && cfg.pod4 == [192, 0, 0, 2] && Rel(cfg, SumNone, f, g)
    ensures |g| == 64 && !Verifies(Pseudo6(Src6(g), Dst6(g), Nh6(g), 10), g[54..64])
  {
    assert |g| == 64 by {
      EgressHeader(cfg, SumNone, f, g);
    }
    assert !Cong(Le(Rest4(f)[..10]), 0) by {
      SampleSum();
      assert SAMPLE[..10] == SAMPLE;
      CongMod(3585);
    }
    SampleAccepted(cfg, f);
    EgressUdpWithoutChecksum(cfg, SumNone, f, g);
  }

  /** A datagram sent without a checksum that is accepted and leaves with a wrong one. */
  lemma EgressUdpZeroPseudoCounterexample(cfg: Config, macs: bytes)
    requires |macs| == 12 && cfg.pod4 == [192, 0, 0, 2]
    ensures var f := SampleFrame(macs);
            && IsSample(f) && Decision(cfg, f) == Translate
            && forall g :: Rel(cfg, SumNone, f, g)
                           ==> |g| == 64 && !Verifies(Pseudo6(Src6(g), Dst6(g), Nh6(g), 10), g[54..64])
  {
    var f := SampleFrame(macs);
    SampleReads(macs);
    SampleAccepted(cfg, f);
    forall g | Rel(cfg, SumNone, f, g)
      ensures |g| == 64 && !Verifies(Pseudo6(Src6(g), Dst6(g), Nh6(g), 10), g[54..64])
    {
      SampleLeavesWrong(cfg, f, g);
    }
  }
}
