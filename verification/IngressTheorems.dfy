/** What a reader of the translated frame can rely on, for every frame `clat_ingress` accepts. */
module IngressTheorems {
  import opened Bytes
  import opened Checksum
  import opened Headers
  import opened Kernel
  import opened Counters
  import opened EgressSpec
  import opened IngressSpec
  import opened EgressTheorems

  // ---- headers and lengths

  lemma L4Rel6Length(cfg: Config, mode: Mode, f: bytes, a: bytes, b: bytes, exact: bool)
    requires |f| >= 62 && L4Len6(f) >= 0 && L4Decision6(cfg, f, a) == Translate
    requires L4Rel6(cfg, mode, f, a, b, exact)
    ensures |b| == |a| - OuterShrink(f, a)
    ensures OuterShrink(f, a) == 0 || (IsError(f, a) && InComplete(a) && |b| >= 28)
  {
  }

  /** Every header field of the translation, read back from its bytes. The header checksum
      verifies under the reference arithmetic. */
  lemma IngressHeader(cfg: Config, mode: Mode, f: bytes, g: bytes, exact: bool)
    requires Rel6(cfg, mode, f, g, exact)
    ensures Has4(g) && g[..12] == f[..12] && EtherType(g) == ETHER_IP4
    ensures Version(g) == 4 && Ihl(g) == 20 && Tos4(g) == Tc6(f) && Ttl4(g) == Hop6(f)
    ensures Proto4(g) == Proto(Upper6(f)) && Src4(g) == Source4(cfg, f) && Dst4(g) == cfg.pod4
    ensures TotLen(g) == (L4Len6(f) + 20 - OuterShrink(f, Rest6(f))) % 0x1_0000
    ensures Id4(g) == FragId(f) && FragWord(g) == Frag4Word(f)
    ensures Rest4(g) == g[34..]
    ensures Verifies([], g[14..34])
  {
    var shrink := OuterShrink(f, Rest6(f));
    var tot := (L4Len6(f) + 20 - shrink) % 0x1_0000;
    OuterReads(cfg, f, shrink, g[34..]);
    assert g == Head4(cfg, f, shrink) + g[34..];
  }

  lemma OuterReads(cfg: Config, f: bytes, shrink: nat, rest: bytes)
    requires |f| >= 62
    ensures var g := Head4(cfg, f, shrink) + rest;
            && Has4(g) && g[..12] == f[..12] && EtherType(g) == ETHER_IP4
            && Version(g) == 4 && Ihl(g) == 20 && Tos4(g) == Tc6(f) && Ttl4(g) == Hop6(f)
            && Proto4(g) == Proto(Upper6(f)) && Src4(g) == Source4(cfg, f) && Dst4(g) == cfg.pod4
            && TotLen(g) == (L4Len6(f) + 20 - shrink) % 0x1_0000
            && Id4(g) == FragId(f) && FragWord(g) == Frag4Word(f)
            && Verifies([], g[14..34])
  {
    var tot := (L4Len6(f) + 20 - shrink) % 0x1_0000;
    var g := Head4(cfg, f, shrink) + rest;
    var pre := f[..12] + ETHER_IP4;
    var h := OuterHdr(cfg, f, shrink);
    assert g == pre + h + rest;
    Ip4HdrReads(pre, Tc6(f), tot, FragId(f), Frag4Word(f), Hop6(f), Proto(Upper6(f)),
                Source4(cfg, f), cfg.pod4, rest);
    Ip4HeaderVerifies(Tc6(f), tot, FragId(f), Frag4Word(f), Hop6(f), Proto(Upper6(f)),
                      Source4(cfg, f), cfg.pod4);
    assert g[14..34] == h;
    assert g[..12] == g[..14][..12] && EtherType(g) == g[..14][12..];
  }

  lemma IngressFrameLength(cfg: Config, mode: Mode, f: bytes, g: bytes, exact: bool)
    requires Rel6(cfg, mode, f, g, exact) && |f| == 54 + PayloadLen(f) as int
    ensures |g| - 34 == L4Len6(f) - OuterShrink(f, Rest6(f)) >= 0
  {
    L4Rel6Length(cfg, mode, f, Rest6(f), g[34..], exact);
  }

  lemma SmallMod(x: int)
    ensures 0 <= x < 0x1_0000 ==> x % 0x1_0000 == x
    ensures 0x1_0000 <= x < 0x2_0000 ==> x % 0x1_0000 == x - 0x1_0000
  {
  }

  /** Where the IPv6 length matched the frame the IPv4 length does too, exactly as long as the
      translated payload leaves room for the header in 16 bits; above 65515 bytes the sum wraps. */
  lemma IngressLength(cfg: Config, mode: Mode, f: bytes, g: bytes, exact: bool)
    requires Rel6(cfg, mode, f, g, exact) && |f| == 54 + PayloadLen(f) as int
    ensures |g| >= 34
    ensures |g| == 14 + TotLen(g) as int <==> L4Len6(f) - OuterShrink(f, Rest6(f)) <= 65515
    ensures PayloadLen(f) <= 65515 ==> |g| == 14 + TotLen(g) as int
  {
    IngressFrameLength(cfg, mode, f, g, exact);
    var x := L4Len6(f) + 20 - OuterShrink(f, Rest6(f));
    assert TotLen(g) == x % 0x1_0000 by {
      IngressHeader(cfg, mode, f, g, exact);
    }
    SmallMod(x);
  }

  /** Every transport byte but the checksum field and an echo's type is carried over in order. */
  lemma IngressCarriesBytes(cfg: Config, mode: Mode, f: bytes, g: bytes, exact: bool, i: nat)
    requires Rel6(cfg, mode, f, g, exact) && i < |Rest6(f)| && !IsError(f, Rest6(f))
    requires (IsFrag6(f) && Off6(f) != 0) || !Mutable(Proto(Upper6(f)), i)
    ensures |g| == 34 + |Rest6(f)| && g[34 + i] == Rest6(f)[i]
  {
    L4Rel6Length(cfg, mode, f, Rest6(f), g[34..], exact);
    assert g[34 + i] == g[34..][i];
  }

  /** An error carries the quoted transport bytes over in order, however many there are, but for
      the embedded checksum and an embedded echo's type. */
  lemma IngressErrorCarriesBytes(cfg: Config, mode: Mode, f: bytes, g: bytes, exact: bool, i: nat)
    requires Rel6(cfg, mode, f, g, exact) && IsError(f, Rest6(f))
    requires i < |Quoted(Rest6(f))| && !Rewritten(Rest6(f), i)
    ensures |g| == 62 + |Quoted(Rest6(f))| && g[62 + i] == Quoted(Rest6(f))[i]
  {
    var a := Rest6(f);
    L4Rel6Length(cfg, mode, f, a, g[34..], exact);
    TailOfTail(g, 34, 28);
    QuoteKeepsByte(cfg, a, g[62..], exact, i);
  }

  lemma QuoteKeepsByte(cfg: Config, a: bytes, r: bytes, exact: bool, i: nat)
    requires InComplete(a) && QuoteRel(cfg, a, Quoted(a), r, exact) && i < |Quoted(a)| && !Rewritten(a, i)
    ensures |r| == |Quoted(a)| && r[i] == Quoted(a)[i]
  {
  }

  /** The length the quoted packet claims for its transport part. A quoted fragment may claim less
      than its Fragment header. */
  function QuotedLen(a: bytes): int
    requires |a| >= 48
  {
    InPlen(a) as int - if InFrag(a) then 8 else 0
  }

  /** The length in the embedded IPv4 header is right, and a length an IPv4 packet can have, exactly
      when the quoted packet claims a transport part of 0 to 65515 bytes. */
  lemma EmbeddedLengthExactly(cfg: Config, mode: Mode, f: bytes, g: bytes, exact: bool)
    requires Rel6(cfg, mode, f, g, exact) && IsError(f, Rest6(f))
    ensures |g| >= 62 && InComplete(Rest6(f))
    ensures var q := QuotedLen(Rest6(f));
            GetBe16(g, 44) as int == 20 + q && GetBe16(g, 44) >= 20 <==> 0 <= q <= 65515
  {
    EmbeddedHeader(cfg, mode, f, g, exact);
    InnerLength(cfg, Rest6(f));
    EmbeddedWord(g, InnerHdr(cfg, Rest6(f)));
    LengthFits(QuotedLen(Rest6(f)), GetBe16(g, 44));
  }

  lemma EmbeddedWord(g: bytes, h: bytes)
    requires |g| >= 62 && g[42..62] == h
    ensures GetBe16(g, 44) == GetBe16(h, 2)
  {
    assert g[44] == h[2] && g[45] == h[3];
  }

  lemma LengthFits(q: int, v: u16)
    requires -8 <= q <= 0xffff && v == (q + 20) % 0x1_0000
    ensures v as int == 20 + q && v >= 20 <==> 0 <= q <= 65515
  {
  }

  lemma InnerLength(cfg: Config, a: bytes)
    requires InComplete(a)
    ensures GetBe16(InnerHdr(cfg, a), 2) == (QuotedLen(a) + 20) % 0x1_0000
  {
    Be16Truncates(QuotedLen(a) + 20);
    var h := InnerHdr(cfg, a);
    assert h[2] == Be16(QuotedLen(a) + 20)[0] && h[3] == Be16(QuotedLen(a) + 20)[1];
  }

  lemma EmbeddedHeader(cfg: Config, mode: Mode, e: bytes, h: bytes, exact: bool)
    requires Rel6(cfg, mode, e, h, exact) && IsError(e, Rest6(e))
    ensures |h| >= 62 && InComplete(Rest6(e)) && h[42..62] == InnerHdr(cfg, Rest6(e))
  {
    L4Rel6Length(cfg, mode, e, Rest6(e), h[34..], exact);
    ErrorTypeReads(cfg, mode, e, Rest6(e), h[34..], exact);
    SliceOfTail(h, 34, 8, 28);
  }

  // ---- selectivity

  /** Only traffic for the pod that comes from the prefix, or reports an error on a flow into it,
      is rewritten. Anything from outside the prefix comes out as an ICMPv4 error from the
      configured address. */
  lemma IngressSelectivity(cfg: Config, mode: Mode, f: bytes, g: bytes, exact: bool)
    requires Rel6(cfg, mode, f, g, exact)
    ensures |f| >= 62 && Dst6(f) == cfg.pod6 && Has4(g) && Dst4(g) == cfg.pod4
    ensures InPrefix(cfg, Src6(f)) ==> Src6(f) == Mapped(cfg, Src4(g))
    ensures !InPrefix(cfg, Src6(f)) ==>
              && Nh6(f) == ICMPV6 && 1 <= f[54] <= 4 && QuotesOurFlow(cfg, f[54..])
              && Src4(g) == cfg.err4 && Proto4(g) == ICMP && |g| >= 62
              && g[34] in {ICMP_DEST_UNREACH, ICMP_TIME_EXCEEDED, ICMP_PARAMETERPROB}
  {
    IngressHeader(cfg, mode, f, g, exact);
    if InPrefix(cfg, Src6(f)) {
      assert Src6(f) == Src6(f)[..12] + Src6(f)[12..];
    } else {
      assert Rest6(f) == f[54..];
      L4Rel6Length(cfg, mode, f, Rest6(f), g[34..], exact);
      ErrorTypeReads(cfg, mode, f, Rest6(f), g[34..], exact);
    }
  }

  /** The type and code of an ICMPv4 error are the mapped ones. */
  lemma ErrorTypeReads(cfg: Config, mode: Mode, f: bytes, a: bytes, b: bytes, exact: bool)
    requires |f| >= 62 && L4Len6(f) >= 0 && |a| >= 8 && ErrorDecision(cfg, a) == Translate
    requires ErrorRel(cfg, mode, f, a, b, exact)
    ensures var m := ErrorMap(a[0], a[1], GetBe32(a, 4));
            && |b| >= 28 && m.Map? && b[0] == m.kind && b[1] == m.code
            && b[4..8] == ErrorWord(a, m) && b[8..28] == InnerHdr(cfg, a)
  {
    NewErrorReads(cfg, a);
    SpliceReads(NewError(cfg, a), b, GetLe16(b, 2));
  }

  lemma NewErrorReads(cfg: Config, a: bytes)
    requires InComplete(a) && ErrorMap(a[0], a[1], GetBe32(a, 4)).Map?
    ensures var m, n := ErrorMap(a[0], a[1], GetBe32(a, 4)), NewError(cfg, a);
            n[0] == m.kind && n[1] == m.code && n[4..8] == ErrorWord(a, m) && n[8..28] == InnerHdr(cfg, a)
            && GetLe16(n, 2) == 0
  {
  }

  lemma SpliceReads(n: bytes, b: bytes, v: u16)
    requires |n| == 28 && |b| >= 28 && b[..28] == Splice(n, 2, Le16(v))
    ensures b[0] == n[0] && b[1] == n[1] && b[4..8] == n[4..8] && b[8..28] == n[8..28]
  {
    var h := Splice(n, 2, Le16(v));
    assert b[0] == h[0] && b[1] == h[1];
    forall i | 4 <= i < 28
      ensures b[i] == n[i]
    {
      assert b[i] == b[..28][i] == h[i];
    }
  }

  // ---- residuals

  /** TCP and UDP: the residual survives, so the output verifies exactly when the input did. */
  lemma IngressTransportResidual(cfg: Config, mode: Mode, f: bytes, g: bytes, exact: bool)
    requires Rel6(cfg, mode, f, g, exact) && !mode.SumPartial? && !IsFrag6(f)
    requires Upper6(f) == TCP || Upper6(f) == UDP
    requires FieldOffset(Upper6(f)) + 2 <= L4Len6(f) <= |Rest6(f)|
    ensures |g| >= 34 + L4Len6(f)
    ensures var n := L4Len6(f);
            var p6 := Pseudo6(Src6(f), Dst6(f), Upper6(f), n);
            var p4 := Pseudo4(Src4(g), Dst4(g), Proto4(g), n);
            && Cong(Residual(p4, g[34..34 + n]), Residual(p6, Rest6(f)[..n]))
            && (Verifies(p4, g[34..34 + n]) <==> Verifies(p6, Rest6(f)[..n]))
  {
    IngressHeader(cfg, mode, f, g, exact);
    L4Rel6Length(cfg, mode, f, Rest6(f), g[34..], exact);
    var n := L4Len6(f);
    var a, b := Rest6(f), g[34..];
    assert b[..n] == g[34..34 + n];
    TransportResidual6(cfg, mode, f, a, b, n);
  }

  lemma TransportResidual6(cfg: Config, mode: Mode, f: bytes, a: bytes, b: bytes, n: u16)
    requires |f| >= 62 && !mode.SumPartial? && (Upper6(f) == TCP || Upper6(f) == UDP)
    requires FieldPatched(mode, a, b, FieldOffset(Upper6(f)), AddrDelta6(cfg, f), Upper6(f) == UDP)
    requires FieldOffset(Upper6(f)) + 2 <= n as int <= |a|
    ensures var p6 := Pseudo6(Src6(f), Dst6(f), Upper6(f), n);
            var p4 := Pseudo4(Source4(cfg, f), cfg.pod4, Upper6(f), n);
            && Cong(Residual(p4, b[..n]), Residual(p6, a[..n]))
            && (Verifies(p4, b[..n]) <==> Verifies(p6, a[..n]))
  {
    var proto := Upper6(f);
    var s4 := Source4(cfg, f);
    PseudoPair(s4, cfg.pod4, Src6(f), Dst6(f), proto, n);
    PatchVerdict(mode, a, b, FieldOffset(proto), AddrDelta6(cfg, f), proto == UDP, n,
                 Pseudo6(Src6(f), Dst6(f), proto, n), Pseudo4(s4, cfg.pod4, proto, n));
  }

  /** A partial checksum field that held the IPv6 pseudo-header sum holds the IPv4 one. */
  lemma IngressPartial(cfg: Config, f: bytes, g: bytes, exact: bool)
    requires Rel6(cfg, SumPartial, f, g, exact) && !(IsFrag6(f) && Off6(f) != 0)
    requires (Upper6(f) == TCP || Upper6(f) == UDP) && |Rest6(f)| >= FieldOffset(Upper6(f)) + 2
    requires Cong(GetLe16(Rest6(f), FieldOffset(Upper6(f))), Le(Pseudo6(Src6(f), Dst6(f), Upper6(f), L4Len6(f))))
    ensures |g| == 34 + |Rest6(f)|
    ensures Cong(GetLe16(g[34..], FieldOffset(Upper6(f))), Le(Pseudo4(Src4(g), Dst4(g), Proto4(g), L4Len6(f))))
  {
    IngressHeader(cfg, SumPartial, f, g, exact);
    L4Rel6Length(cfg, SumPartial, f, Rest6(f), g[34..], exact);
    var off := FieldOffset(Upper6(f));
    PseudoPair(Source4(cfg, f), cfg.pod4, Src6(f), Dst6(f), Upper6(f), L4Len6(f));
    PartialMoves(GetLe16(Rest6(f), off), GetLe16(g[34..], off), AddrDelta6(cfg, f), Upper6(f) == UDP,
                 Le(Pseudo6(Src6(f), Dst6(f), Upper6(f), L4Len6(f))));
  }

  /** A correct echo reply whose ICMPv4 form is all zeros: nothing but type and checksum in it. */
  predicate BecomesZero(a: bytes, n: nat)
    requires 4 <= n <= |a|
  {
    a[0] == ICMP6_ECHOREPLY && a[1] == 0 && forall i :: 4 <= i < n ==> a[i] == 0
  }

  /** Echo: the residual survives. The verdict is the same but for a reply without identifier,
      sequence number and data, which comes out as all zeros and no longer verifies. */
  lemma IngressEchoResidual(cfg: Config, mode: Mode, f: bytes, g: bytes, exact: bool)
    requires Rel6(cfg, mode, f, g, exact) && !mode.SumPartial? && Upper6(f) == ICMPV6
    requires |Rest6(f)| >= 8 && IsEcho6(Rest6(f)[0])
    requires 4 <= L4Len6(f) <= |Rest6(f)|
    ensures |g| >= 34 + L4Len6(f)
    ensures var n := L4Len6(f);
            var b := g[34..34 + n];
            && Cong(Le(b), Residual(IcmpPseudo(f), Rest6(f)[..n]))
            && (Verifies([], b) <==> Verifies(IcmpPseudo(f), Rest6(f)[..n]) && !BecomesZero(Rest6(f), n))
  {
    L4Rel6Length(cfg, mode, f, Rest6(f), g[34..], exact);
    var n, a, b := L4Len6(f), Rest6(f), g[34..];
    assert b[..n] == g[34..34 + n];
    var p: int := Le(IcmpPseudo(f));
    EchoResidual(mode, a, b, n, EchoType4(a[0]), EchoDelta6(f, a[0]), 0 - p);
    EchoReturns(Le(b[..n]), Le(a[..n]), p);
    Pseudo6Sum(Src6(f), Dst6(f), ICMPV6, n);
    EchoVerdict6(IcmpPseudo(f), a[..n], b[..n]);
    if Verifies(IcmpPseudo(f), a[..n]) {
      VerifiesSpec(IcmpPseudo(f), a[..n]);
      ZeroFollows(Le(b[..n]), Residual(IcmpPseudo(f), a[..n]));
      EchoZeroes(mode, a, b, n, EchoType4(a[0]), EchoDelta6(f, a[0]));
    }
  }

  /** An output that sums to zero is all zeros exactly when everything but its checksum is. */
  lemma EchoZeroes(mode: Mode, a: bytes, b: bytes, n: nat, t: byte, delta: int)
    requires |a| >= 1 && FieldPatched(mode, a[0 := t], b, 2, delta, false) && !mode.SumPartial?
    requires 4 <= n <= |a| && Cong(Le(b[..n]), 0)
    ensures (forall i :: 0 <= i < n ==> b[..n][i] == 0)
            <==> t == 0 && a[1] == 0 && forall i :: 4 <= i < n ==> a[i] == 0
  {
    var v: u16 := GetLe16(b, 2);
    forall i | 0 <= i < n && !(2 <= i < 4)
      ensures b[..n][i] == if i == 0 then t else a[i]
    {
    }
    assert forall i :: 4 <= i < n ==> b[..n][i] == a[i];
    if t == 0 && a[1] == 0 && forall i :: 4 <= i < n ==> a[i] == 0 {
      var z: bytes := seq(n, _ => 0);
      assert b[..n] == Splice(z, 2, Le16(v));
      SumZero(z, false);
      LeField(z, 2, v);
      CongUnique(v, 0);
    }
  }

  lemma EchoReturns(b: int, a: int, p: int)
    requires Cong(0 - p + b, a)
    ensures Cong(b, p + a)
  {
    CongOffset(0 - p + b, a, p);
  }

  lemma EchoVerdict6(p6: bytes, a: bytes, b: bytes)
    requires Cong(Le(b), Residual(p6, a)) && Le(p6) > 0
    ensures Verifies([], b) <==> Verifies(p6, a) && !(forall i :: 0 <= i < |b| ==> b[i] == 0)
  {
    VerifiesSpec(p6, a);
    VerifiesSpec([], b);
    ZeroFollows(Le(b), Residual(p6, a));
    SumZero(b, false);
  }

  /** ICMPv6 errors, whatever they quote and however the quote is cut: the residual of the whole
      ICMPv4 message is that of the ICMPv6 message with its pseudo-header, even where the embedded
      checksum was skipped or lost a carry. The message is never all zeros, so the verdicts agree
      exactly. For a frame with trailing padding the same holds of the message cut at the payload
      length, as long as that does not cut the rewritten field. */
  lemma IngressErrorResidual(cfg: Config, mode: Mode, f: bytes, g: bytes, exact: bool)
    requires Rel6(cfg, mode, f, g, exact) && !mode.SumPartial? && IsError(f, Rest6(f))
    ensures |g| >= 62
    ensures Cong(Le(g[34..]), Residual(IcmpPseudo(f), Rest6(f)))
    ensures Verifies([], g[34..]) <==> Verifies(IcmpPseudo(f), Rest6(f))
    ensures var a, n := Rest6(f), L4Len6(f);
            PatchEnd(a) <= n <= |a| ==>
              var b := g[34..34 + n - Shrinkage(a)];
              && Cong(Le(b), Residual(IcmpPseudo(f), a[..n]))
              && (Verifies([], b) <==> Verifies(IcmpPseudo(f), a[..n]))
  {
    var a, b, n := Rest6(f), g[34..], L4Len6(f);
    L4Rel6Length(cfg, mode, f, a, b, exact);
    ErrorResidual(cfg, mode, f, a, b, exact);
    if PatchEnd(a) <= n <= |a| {
      CutResidual(cfg, mode, f, a, b, exact, n);
      assert b[..n - Shrinkage(a)] == g[34..34 + n - Shrinkage(a)];
    }
  }

  /** Where the rewritten part of an error ends. */
  function PatchEnd(a: bytes): nat
    requires InComplete(a)
  {
    InHdrEnd(a) + if Patches(a) then PatchOffset(a) + 2 else 0
  }

  lemma CutResidual(cfg: Config, mode: Mode, f: bytes, a: bytes, b: bytes, exact: bool, n: nat)
    requires |f| >= 62 && L4Len6(f) >= 0 && |a| >= 8 && ErrorDecision(cfg, a) == Translate
    requires ErrorRel(cfg, mode, f, a, b, exact) && !mode.SumPartial? && PatchEnd(a) <= n <= |a|
    ensures var c := b[..n - Shrinkage(a)];
            && Cong(Le(c), Residual(IcmpPseudo(f), a[..n]))
            && (Verifies([], c) <==> Verifies(IcmpPseudo(f), a[..n]))
  {
    var m, p := n - Shrinkage(a), IcmpPseudo(f);
    assert b[0] != 0 by {
      ErrorTypeReads(cfg, mode, f, a, b, exact);
    }
    assert Cong(Le(b), Residual(p, a)) by {
      ErrorResidual(cfg, mode, f, a, b, exact);
    }
    assert a[n..] == b[m..] by {
      TailCarried(cfg, mode, f, a, b, exact, n);
    }
    CutMessage(p, a, b, n, m);
  }

  lemma CutMessage(p: bytes, a: bytes, b: bytes, n: nat, m: nat)
    requires Cong(Le(b), Residual(p, a)) && n <= |a| && 0 < m <= |b| && n % 2 == m % 2 && a[n..] == b[m..]
    requires b[0] != 0 && |p| == 40 && p[39] != 0
    ensures Cong(Le(b[..m]), Residual(p, a[..n])) && (Verifies([], b[..m]) <==> Verifies(p, a[..n]))
  {
    SameTail(a, b, n, m);
    CongOffset(Le(b), Residual(p, a), Le(a[..n]) - Le(a));
    ErrorVerdict(p, a[..n], b[..m]);
  }

  // ---- a payload length that ends before the rewritten field

  /** What the rewritten bytes behind a cut at `k` quoted bytes, before the field, take off the sum:
      the patch, and an echo's type if that is behind the cut too. */
  function CutDelta(cfg: Config, a: bytes, k: nat): int
    requires InComplete(a)
  {
    PatchDelta(cfg, a)
    - if QuotesEcho(a) && k == 0 then EchoType4(Quoted(a)[0]) as int - Quoted(a)[0] as int else 0
  }

  /** If the payload length ends among the quoted bytes before the rewritten field, the program
      patches what lies behind the message and feeds that to the checksum of the message. The
      residual then survives exactly when the patch changes nothing. */
  lemma CutBeforeField(cfg: Config, mode: Mode, f: bytes, g: bytes, k: nat)
    requires Rel6(cfg, mode, f, g, true) && !mode.SumPartial? && IsError(f, Rest6(f)) && Patches(Rest6(f))
    requires L4Len6(f) == InHdrEnd(Rest6(f)) + k && k <= PatchOffset(Rest6(f))
    requires Rep(PatchDelta(cfg, Rest6(f))) <= GetLe16(Quoted(Rest6(f)), PatchOffset(Rest6(f))) as int
    ensures |g| >= 62 + k
    ensures Cong(Le(g[34..62 + k]), Residual(IcmpPseudo(f), Rest6(f)[..L4Len6(f)]))
            <==> Cong(CutDelta(cfg, Rest6(f), k), 0)
  {
    var a, b := Rest6(f), g[34..];
    L4Rel6Length(cfg, mode, f, a, b, true);
    assert Cong(Le(b), Residual(IcmpPseudo(f), a)) by {
      ErrorResidual(cfg, mode, f, a, b, true);
    }
    CutErrorExactly(cfg, IcmpPseudo(f), a, b, k);
    SliceOfTail(g, 34, 0, 28 + k);
  }

  lemma CutErrorExactly(cfg: Config, p: bytes, a: bytes, b: bytes, k: nat)
    requires InComplete(a) && Patches(a) && |b| >= 28 && QuoteRel(cfg, a, Quoted(a), b[28..], true)
    requires Rep(PatchDelta(cfg, a)) <= GetLe16(Quoted(a), PatchOffset(a)) as int && k <= PatchOffset(a)
    requires Cong(Le(b), Residual(p, a))
    ensures 28 + k <= |b| && InHdrEnd(a) + k <= |a|
    ensures Cong(Le(b[..28 + k]), Residual(p, a[..InHdrEnd(a) + k])) <==> Cong(CutDelta(cfg, a, k), 0)
  {
    var t := TailMoves(cfg, a, b[28..], k);
    CutSums(p, a, b, InHdrEnd(a), k, t, CutDelta(cfg, a, k));
  }

  lemma CutSums(p: bytes, a: bytes, b: bytes, end: nat, k: nat, t: int, delta: int)
    requires end % 2 == 0 && end + k <= |a| && 28 + k <= |b| && Cong(Le(b), Residual(p, a)) && Cong(t, 0 - delta)
    requires SumAt(b[28..][k..], k % 2 == 1) == SumAt(a[end..][k..], k % 2 == 1) + t
    ensures Cong(Le(b[..28 + k]), Residual(p, a[..end + k])) <==> Cong(delta, 0)
  {
    TailOfTail(b, 28, k);
    TailOfTail(a, end, k);
    SplitSums(a, b, end + k, 28 + k, t);
    CutClass(Le(b), Le(p), Le(a), Le(b[..28 + k]), Le(a[..end + k]), t, delta);
  }

  /** The sum behind the cut moves by `t`. */
  lemma TailMoves(cfg: Config, a: bytes, r: bytes, k: nat) returns (t: int)
    requires InComplete(a) && Patches(a) && QuoteRel(cfg, a, Quoted(a), r, true) && k <= PatchOffset(a)
    requires Rep(PatchDelta(cfg, a)) <= GetLe16(Quoted(a), PatchOffset(a)) as int
    ensures |r| == |Quoted(a)| >= k
    ensures SumAt(r[k..], k % 2 == 1) == SumAt(Quoted(a)[k..], k % 2 == 1) + t
    ensures Cong(t, 0 - CutDelta(cfg, a, k))
  {
    QuotePatch(cfg, a, r);
    t := PatchedTailMoves(Quoted(a), QuotesEcho(a), r, PatchOffset(a), PatchDelta(cfg, a), k);
  }

  /** What the rewriting of a quote amounts to. */
  ghost predicate PatchedQuote(q: bytes, echo: bool, r: bytes, off: nat, delta: int) {
    if echo then |q| >= 4 && off == 2 && FieldReplaced(q[0 := EchoType4(q[0])], r, 2, delta)
    else off % 2 == 0 && FieldReplaced(q, r, off, delta)
  }

  lemma QuotePatch(cfg: Config, a: bytes, r: bytes)
    requires InComplete(a) && Patches(a) && QuoteRel(cfg, a, Quoted(a), r, true)
    ensures PatchedQuote(Quoted(a), QuotesEcho(a), r, PatchOffset(a), PatchDelta(cfg, a))
  {
  }

  lemma PatchedTailMoves(q: bytes, echo: bool, r: bytes, off: nat, delta: int, k: nat) returns (t: int)
    requires PatchedQuote(q, echo, r, off, delta) && k <= off
    requires off + 2 <= |q| && Rep(delta) <= GetLe16(q, off) as int
    ensures |r| == |q| >= k && SumAt(r[k..], k % 2 == 1) == SumAt(q[k..], k % 2 == 1) + t
    ensures Cong(t, 0 - (delta - if echo && k == 0 then EchoType4(q[0]) as int - q[0] as int else 0))
  {
    if echo {
      t := EchoTailMoves(q, EchoType4(q[0]), r, delta, k);
    } else {
      t := FieldTailMoves(q, r, off, delta, k);
    }
  }

  lemma FieldTailMoves(q: bytes, r: bytes, off: nat, delta: int, k: nat) returns (t: int)
    requires FieldReplaced(q, r, off, delta) && off % 2 == 0 && k <= off && Rep(delta) <= GetLe16(q, off) as int
    ensures SumAt(r[k..], k % 2 == 1) == SumAt(q[k..], k % 2 == 1) + t && Cong(t, 0 - delta)
  {
    var oc, nc := GetLe16(q, off), GetLe16(r, off);
    PatchNeverWraps(oc, nc, delta);
    PatchBehind(q, r, off, k);
    t := nc as int - oc as int;
    CongOffset(nc, oc as int - delta, 0 - oc as int);
  }

  lemma EchoTailMoves(q: bytes, t4: byte, r: bytes, delta: int, k: nat) returns (t: int)
    requires |q| >= 4 && FieldReplaced(q[0 := t4], r, 2, delta) && k <= 2 && Rep(delta) <= GetLe16(q, 2) as int
    ensures SumAt(r[k..], k % 2 == 1) == SumAt(q[k..], k % 2 == 1) + t
    ensures Cong(t, 0 - (delta - if k == 0 then t4 as int - q[0] as int else 0))
  {
    assert GetLe16(q[0 := t4], 2) == GetLe16(q, 2);
    var u := FieldTailMoves(q[0 := t4], r, 2, delta, k);
    TypeBehind(q, t4, k);
    var w := if k == 0 then t4 as int - q[0] as int else 0;
    t := u + w;
    CongOffset(u, 0 - delta, w);
  }

  lemma PatchBehind(q: bytes, r: bytes, off: nat, k: nat)
    requires off + 2 <= |q| == |r| && off % 2 == 0 && k <= off && r == Splice(q, off, Le16(GetLe16(r, off)))
    ensures SumAt(r[k..], k % 2 == 1) == SumAt(q[k..], k % 2 == 1) - GetLe16(q, off) as int + GetLe16(r, off) as int
  {
    assert r[..k] == q[..k];
    assert r == r[..k] + r[k..] && q == q[..k] + q[k..];
    SumConcat(r[..k], r[k..], false);
    SumConcat(q[..k], q[k..], false);
    LeField(q, off, GetLe16(r, off));
  }

  lemma TypeBehind(q: bytes, t: byte, k: nat)
    requires 1 <= |q| && k <= |q|
    ensures SumAt(q[0 := t][k..], k % 2 == 1)
            == SumAt(q[k..], k % 2 == 1) + if k == 0 then t as int - q[0] as int else 0
  {
    if k == 0 {
      assert q[0 := t][0..] == q[0 := t] && q[0..] == q;
      LeFirstByte(q, t);
    } else {
      assert q[0 := t][k..] == q[k..];
    }
  }

  lemma SplitSums(a: bytes, b: bytes, n: nat, m: nat, t: int)
    requires n <= |a| && m <= |b| && n % 2 == m % 2
    requires SumAt(b[m..], m % 2 == 1) == SumAt(a[n..], n % 2 == 1) + t
    ensures Le(b) - Le(b[..m]) == Le(a) - Le(a[..n]) + t
  {
    assert a == a[..n] + a[n..] && b == b[..m] + b[m..];
    SumConcat(a[..n], a[n..], false);
    SumConcat(b[..m], b[m..], false);
  }

  lemma CutClass(b: int, p: int, a: int, bm: int, an: int, t: int, delta: int)
    requires Cong(b, p + a) && b - bm == a - an + t && Cong(t, 0 - delta)
    ensures Cong(bm, p + an) <==> Cong(delta, 0)
  {
    CongOffset(b, p + a, an - a - t);
    CongOffset(t, 0 - delta, 0);
    CongOffset(0 - t, delta, p + an);
    CongTrans(bm, p + an - t, p + an + delta);
    if Cong(bm, p + an) {
      CongSym(bm, p + an + delta);
      CongTrans(p + an + delta, bm, p + an);
      CongOffset(p + an + delta, p + an, 0 - p - an);
    }
    if Cong(delta, 0) {
      CongOffset(delta, 0, p + an);
      CongTrans(bm, p + an + delta, p + an);
    }
  }

  lemma TailCarried(cfg: Config, mode: Mode, f: bytes, a: bytes, b: bytes, exact: bool, n: nat)
    requires |f| >= 62 && L4Len6(f) >= 0 && |a| >= 8 && ErrorDecision(cfg, a) == Translate
    requires ErrorRel(cfg, mode, f, a, b, exact) && PatchEnd(a) <= n <= |a|
    ensures b[n - Shrinkage(a)..] == a[n..]
  {
    var m := n - Shrinkage(a);
    forall i | n <= i < |a|
      ensures b[i - Shrinkage(a)] == a[i]
    {
      QuoteKeepsByte(cfg, a, b[28..], exact, i - InHdrEnd(a));
      assert b[i - Shrinkage(a)] == b[28..][i - InHdrEnd(a)];
    }
    assert |b[m..]| == |a[n..]|;
    assert forall j :: 0 <= j < |a| - n ==> b[m..][j] == b[(n + j) - Shrinkage(a)] && a[n..][j] == a[n + j];
  }

  /** A common tail at positions of equal parity adds the same to both sums. */
  lemma SameTail(a: bytes, b: bytes, n: nat, m: nat)
    requires n <= |a| && m <= |b| && n % 2 == m % 2 && a[n..] == b[m..]
    ensures Le(b[..m]) - Le(b) == Le(a[..n]) - Le(a)
  {
    assert a == a[..n] + a[n..] && b == b[..m] + b[m..];
    SumConcat(a[..n], a[n..], false);
    SumConcat(b[..m], b[m..], false);
  }

  lemma ErrorResidual(cfg: Config, mode: Mode, f: bytes, a: bytes, b: bytes, exact: bool)
    requires |f| >= 62 && L4Len6(f) >= 0 && |a| >= 8 && ErrorDecision(cfg, a) == Translate
    requires ErrorRel(cfg, mode, f, a, b, exact) && !mode.SumPartial?
    ensures Cong(Le(b), Residual(IcmpPseudo(f), a))
    ensures Verifies([], b) <==> Verifies(IcmpPseudo(f), a)
  {
    var n, r, p := NewError(cfg, a), b[28..], IcmpPseudo(f);
    var v: u16 := GetLe16(b, 2);
    ErrorTypeReads(cfg, mode, f, a, b, exact);
    assert b == b[..28] + r;
    LeConcat(b[..28], r);
    assert GetLe16(n, 2) == 0;
    LeField(n, 2, v);
    var delta := Le(n) + Le(r) - Le(p) - Le(a);
    CongOffset(v, 0 - delta, Le(n) + Le(r));
    ErrorVerdict(p, a, b);
    Pseudo6Sum(Src6(f), Dst6(f), ICMPV6, L4Len6(f));
  }

  lemma ErrorVerdict(p: bytes, a: bytes, b: bytes)
    requires Cong(Le(b), Residual(p, a))
    requires |b| > 0 && b[0] != 0 && |p| == 40 && p[39] != 0
    ensures Verifies([], b) <==> Verifies(p, a)
  {
    VerifiesSpec(p, a);
    VerifiesSpec([], b);
    ZeroFollows(Le(b), Residual(p, a));
    SumZero(b, false);
    SumZero(p, false);
  }

  /** The embedded IPv4 header verifies too. */
  lemma EmbeddedHeaderVerifies(cfg: Config, mode: Mode, f: bytes, g: bytes, exact: bool)
    requires Rel6(cfg, mode, f, g, exact) && IsError(f, Rest6(f))
    ensures |g| >= 62 && Verifies([], g[42..62])
  {
    var a, b := Rest6(f), g[34..];
    L4Rel6Length(cfg, mode, f, a, b, exact);
    ErrorTypeReads(cfg, mode, f, a, b, exact);
    assert g[42..62] == b[8..28];
    InnerHdrVerifies(cfg, a);
  }

  lemma InnerHdrVerifies(cfg: Config, a: bytes)
    requires InComplete(a)
    ensures Verifies([], InnerHdr(cfg, a))
  {
    Ip4HeaderVerifies(InTc(a), InPlen(a) as int + 20 - (if InFrag(a) then 8 else 0), InId4(a), InFrag4(a),
                      InHop(a), Proto(InUpper(a)), cfg.pod4, InDst(a)[12..]);
  }

  // ---- the embedded checksum

  /** The plain addition gives the right class exactly when it does not wrap; when it does the
      result is one off. */
  lemma PlainPatchExact(d: u32, oc: u16, nc: u16, delta: int)
    requires PlainPatch(d, oc, nc, delta)
    ensures Cong(nc, oc as int - delta) <==> d as int + 0xffff - oc as int < 0x1_0000_0000
  {
    var x: int := d as int + 0xffff - oc as int;
    var y: int := x % 0x1_0000_0000;
    CsumFoldSpec(y);
    if x < 0x1_0000_0000 {
      PlainClass(nc, x, d, oc, delta);
    } else {
      assert y == x - 0xffff * 0x1_0001 - 1;
      PlainClassLost(nc, x, y, d, oc, delta);
    }
  }

  lemma PlainClass(nc: int, x: int, d: int, oc: int, delta: int)
    requires Cong(nc, 0 - x) && Cong(d, delta) && x == d + 0xffff - oc
    ensures Cong(nc, oc - delta)
  {
    CongShift(nc, 0 - x, 1);
    CongOffset(d, delta, oc);
    CongTrans(nc, oc - d, oc - delta);
  }

  lemma PlainClassLost(nc: int, x: int, y: int, d: int, oc: int, delta: int)
    requires Cong(nc, 0 - y) && Cong(d, delta) && x == d + 0xffff - oc && y == x - 0xffff * 0x1_0001 - 1
    ensures Cong(nc, oc - delta + 1) && !Cong(nc, oc - delta)
  {
    CongShift(nc, 0 - y, 1 - 0x1_0001);
    CongOffset(d, delta, oc + 1);
    CongTrans(nc, oc + 1 - d, oc + 1 - delta);
    if Cong(nc, oc - delta) {
      CongSym(nc, oc - delta);
      CongTrans(oc - delta, nc, oc - delta + 1);
      CongOffset(oc - delta, oc - delta + 1, 0 - (oc - delta));
      CongUnique(0, 1);
    }
  }

  /** A difference of at most 0xffff0000, a folded one for instance, never makes the addition wrap. */
  lemma FoldedDiffNeverWraps(d: u32, oc: u16, nc: u16, delta: int)
    requires PlainPatch(d, oc, nc, delta) && d <= 0xffff_0000
    ensures Cong(nc, oc as int - delta)
  {
    PlainPatchExact(d, oc, nc, delta);
  }

  ghost predicate Represents(r: int, x: int) {
    1 <= r <= 0xffff && Cong(r, x)
  }

  /** The representative in 1..0xffff. */
  ghost function Rep(x: int): (r: int)
    ensures 1 <= r <= 0xffff
  {
    RepExists(x);
    var r :| Represents(r, x);
    r
  }

  lemma RepExists(x: int)
    ensures Represents(if x % 0xffff == 0 then 0xffff else x % 0xffff, x)
  {
    CongMod(x);
    if x % 0xffff == 0 {
      CongShift(x % 0xffff, x, 1);
    }
  }

  /** It is the remainder, with 0xffff for zero. */
  lemma RepSpec(x: int)
    ensures Cong(Rep(x), x) && Rep(x) == if x % 0xffff == 0 then 0xffff else x % 0xffff
  {
    var m := if x % 0xffff == 0 then 0xffff else x % 0xffff;
    RepExists(x);
    assert Represents(Rep(x), x);
    CongSym(m, x);
    CongTrans(Rep(x), x, m);
    CongUnique(Rep(x), m);
  }

  /** Some answer of the difference helper makes the addition wrap exactly when the embedded
      checksum is below the representative of the difference. */
  lemma WrapPossibleExactly(oc: u16, delta: int)
    ensures (exists d: u32 :: Cong(d, delta) && d as int + 0xffff - oc as int >= 0x1_0000_0000) <==> Rep(delta) > oc as int
  {
    RepSpec(delta);
    if Rep(delta) > oc as int {
      var d: u32 := 0xffff_0000 + Rep(delta);
      CongShift(Rep(delta), delta, 0x1_0000);
      assert Cong(d, delta) && d as int + 0xffff - oc as int >= 0x1_0000_0000;
    }
    forall d: u32 | Cong(d, delta) && d as int + 0xffff - oc as int >= 0x1_0000_0000
      ensures Rep(delta) > oc as int
    {
      CongShift(d, delta, -0x1_0000);
      CongSym(Rep(delta), delta);
      CongTrans(d - 0xffff_0000, delta, Rep(delta));
      CongUnique(d - 0xffff_0000, Rep(delta));
    }
  }

  /** Then the embedded checksum is in the right class whatever the helper answered. */
  lemma PatchNeverWraps(oc: u16, nc: u16, delta: int)
    requires InnerPatched(oc, nc, delta) && Rep(delta) <= oc as int
    ensures Cong(nc, oc as int - delta)
  {
    WrapPossibleExactly(oc, delta);
    var d: u32 :| PlainPatch(d, oc, nc, delta);
    PlainPatchExact(d, oc, nc, delta);
  }
}
