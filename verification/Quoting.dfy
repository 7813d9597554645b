/** A router on the IPv6 path quotes a translated packet in an ICMPv6 error; the error comes back
    through `clat_ingress`. The pod must recognise its own packet in the quote. */
module Quoting {
  import opened Bytes
  import opened Checksum
  import opened Headers
  import opened Kernel
  import opened Counters
  import opened EgressSpec
  import opened IngressSpec
  import opened EgressTheorems
  import opened IngressTheorems
  import opened Wire
  import opened RoundTrip
  import opened Existence
  import Octets

  /** The first `n` bytes of the IPv6 packet in `g`, with the hop limit the router saw. */
  function Quote(g: bytes, n: nat, hop: byte): bytes
    requires 40 <= n && 14 + n <= |g|
  {
    g[14..14 + n][7 := hop]
  }

  /** `e` is an ICMPv6 error about `g`, which the far end saw of `f`, that quotes at least its
      headers. */
  ghost predicate ErrorQuoting(cfg: Config, mode: Mode, f: bytes, g: bytes, e: bytes, n: nat, hop: byte) {
    && OnWire(cfg, mode, f, g) && HdrLen(f) <= n && 14 + n <= |g|
    && |e| >= 62 && IsError(e, Rest6(e)) && Rest6(e)[8..] == Quote(g, n, hop)
  }

  /** And the protocol of `f` means the same in both families. */
  ghost predicate ErrorAbout(cfg: Config, mode: Mode, f: bytes, g: bytes, e: bytes, n: nat, hop: byte) {
    ErrorQuoting(cfg, mode, f, g, e, n, hop) && Reversible(Proto4(f))
  }

  /** The error message `a` quotes `g`, whose headers are those of the translation of `f`. */
  ghost predicate Quotes(cfg: Config, f: bytes, g: bytes, a: bytes, n: nat, hop: byte) {
    && Headed(cfg, f, g) && Answerable(f, g) && HdrLen(f) <= n && 14 + n <= |g|
    && |a| >= 8 && a[8..] == Quote(g, n, hop)
  }

  lemma AboutQuotes(cfg: Config, mode: Mode, f: bytes, g: bytes, e: bytes, n: nat, hop: byte)
    requires ErrorQuoting(cfg, mode, f, g, e, n, hop)
    ensures Quotes(cfg, f, g, Rest6(e), n, hop)
  {
    WireReads(cfg, mode, f, g);
  }

  lemma QuoteBytes(g: bytes, n: nat, hop: byte, a: bytes, i: nat)
    requires 40 <= n && 14 + n <= |g| && |a| >= 8 && a[8..] == Quote(g, n, hop) && i < n
    ensures |a| == 8 + n && a[8 + i] == if i == 7 then hop else g[14 + i]
  {
    var q := Quote(g, n, hop);
    assert a[8 + i] == a[8..][i] == q[i];
  }

  lemma QuoteSlice(g: bytes, n: nat, hop: byte, a: bytes, i: nat, j: nat)
    requires 40 <= n && 14 + n <= |g| && |a| >= 8 && a[8..] == Quote(g, n, hop) && 8 <= i <= j <= n
    ensures |a| == 8 + n && a[8 + i..8 + j] == g[14 + i..14 + j]
  {
    SliceOfTail(a, 8, i, j);
    assert |Quote(g, n, hop)| == n;
    forall t | i <= t < j
      ensures Quote(g, n, hop)[t] == g[14 + t]
    {
    }
  }

  /** What the ingress program reads out of the quote is what the pod sent. */
  lemma QuoteFields(cfg: Config, f: bytes, g: bytes, a: bytes, n: nat, hop: byte)
    requires Quotes(cfg, f, g, a, n, hop)
    ensures |a| == 8 + n && a[8] / 16 == 6 && InTc(a) == Tos4(f) && InHop(a) == hop
    ensures InPlen(a) == L4Len(f) + (if IsFrag4(f) then 8 else 0)
    ensures InSrc(a) == cfg.pod6 && InDst(a) == Mapped(cfg, Dst4(f))
    ensures a[14] == if IsFrag4(f) then FRAGMENT else NextHeader(Proto4(f))
    ensures IsFrag4(f) ==> a[48] == NextHeader(Proto4(f))
  {
    QuoteBytes(g, n, hop, a, 0);
    QuoteBytes(g, n, hop, a, 1);
    QuoteBytes(g, n, hop, a, 4);
    QuoteBytes(g, n, hop, a, 5);
    QuoteBytes(g, n, hop, a, 6);
    QuoteBytes(g, n, hop, a, 7);
    QuoteSlice(g, n, hop, a, 8, 24);
    QuoteSlice(g, n, hop, a, 24, 40);
    if IsFrag4(f) {
      QuoteBytes(g, n, hop, a, 40);
    }
  }

  lemma QuoteReads(cfg: Config, f: bytes, g: bytes, a: bytes, n: nat, hop: byte)
    requires Quotes(cfg, f, g, a, n, hop) && Reversible(Proto4(f))
    ensures InComplete(a) && InFrag(a) == IsFrag4(f) && InUpper(a) == NextHeader(Proto4(f))
  {
    QuoteFields(cfg, f, g, a, n, hop);
  }

  lemma QuoteFragReads(cfg: Config, f: bytes, g: bytes, a: bytes, n: nat, hop: byte)
    requires Quotes(cfg, f, g, a, n, hop) && InComplete(a) && InFrag(a) == IsFrag4(f)
    ensures if IsFrag4(f) then InId4(a) == Id4(f) && InFrag4(a) == Off4(f) + (if More4(f) then IP_MF else 0)
            else InId4(a) == 0 && InFrag4(a) == IP_DF
  {
    if IsFrag4(f) {
      QuotedFragmentHeader(g, n, hop, a);
    }
  }

  lemma QuotedFragmentHeader(g: bytes, n: nat, hop: byte, a: bytes)
    requires 48 <= n && 14 + n <= |g| && |a| >= 8 && a[8..] == Quote(g, n, hop)
    ensures |a| >= 56 && GetBe16(a, 50) == FragWord6(g) && GetBe32(a, 52) == Id6(g)
  {
    QuoteBytes(g, n, hop, a, 42);
    QuoteBytes(g, n, hop, a, 43);
    QuoteBytes(g, n, hop, a, 44);
    QuoteBytes(g, n, hop, a, 45);
    QuoteBytes(g, n, hop, a, 46);
    QuoteBytes(g, n, hop, a, 47);
  }

  lemma QuoteTransport(cfg: Config, f: bytes, g: bytes, a: bytes, n: nat, hop: byte)
    requires Quotes(cfg, f, g, a, n, hop) && InComplete(a) && InFrag(a) == IsFrag4(f)
    ensures |Out6(f, g)| == |Rest4(f)| >= n - HdrLen(f) && Quoted(a) == Out6(f, g)[..n - HdrLen(f)]
  {
    QuoteSlice(g, n, hop, a, HdrLen(f), n);
    assert Quoted(a) == a[8 + HdrLen(f)..8 + n];
    assert Out6(f, g)[..n - HdrLen(f)] == g[14 + HdrLen(f)..14 + n];
  }

  /** Of the errors that come back exactly those about reversible packets name their protocol. */
  lemma QuotedProtocol(cfg: Config, m1: Mode, m2: Mode, f: bytes, g: bytes, e: bytes, h: bytes,
                       n: nat, hop: byte, exact: bool)
    requires ErrorQuoting(cfg, m1, f, g, e, n, hop) && Rel6(cfg, m2, e, h, exact)
    ensures |h| >= 62 && (h[51] == Proto4(f) <==> Reversible(Proto4(f)))
  {
    AboutQuotes(cfg, m1, f, g, e, n, hop);
    QuoteFields(cfg, f, g, Rest6(e), n, hop);
    EmbeddedProtocol(cfg, m2, e, h, exact);
  }

  lemma EmbeddedProtocol(cfg: Config, mode: Mode, e: bytes, h: bytes, exact: bool)
    requires Rel6(cfg, mode, e, h, exact) && IsError(e, Rest6(e))
    ensures |h| >= 62 && InComplete(Rest6(e)) && !IsExtHdr(InUpper(Rest6(e))) && h[51] == Proto(InUpper(Rest6(e)))
  {
    var a := Rest6(e);
    L4Rel6Length(cfg, mode, e, a, h[34..], exact);
    ErrorTypeReads(cfg, mode, e, a, h[34..], exact);
    assert h[51] == h[34..][8..28][9] == InnerHdr(cfg, a)[9];
  }

  /** The embedded IPv4 header is, byte for byte, the header the pod sent, without options: its
      addresses, protocol, type of service and length, the hop limit the router saw, and for a
      fragment its identification, offset and more-fragments. */
  lemma QuotedHeaderReturns(cfg: Config, m1: Mode, m2: Mode, f: bytes, g: bytes, e: bytes, h: bytes,
                            n: nat, hop: byte, exact: bool)
    requires ErrorAbout(cfg, m1, f, g, e, n, hop) && Rel6(cfg, m2, e, h, exact)
    ensures |h| >= 62
    ensures h[42..62] == Ip4HdrSummed(Tos4(f), L4Len(f) + 20, if IsFrag4(f) then Id4(f) else 0,
                                      if IsFrag4(f) then Off4(f) + (if More4(f) then IP_MF else 0) else IP_DF,
                                      hop, Proto4(f), Src4(f), Dst4(f))
  {
    AboutQuotes(cfg, m1, f, g, e, n, hop);
    QuotedInnerHdr(cfg, f, g, Rest6(e), n, hop);
    EmbeddedHeader(cfg, m2, e, h, exact);
  }

  lemma QuotedInnerHdr(cfg: Config, f: bytes, g: bytes, a: bytes, n: nat, hop: byte)
    requires Quotes(cfg, f, g, a, n, hop) && Reversible(Proto4(f))
    ensures InComplete(a)
    ensures InnerHdr(cfg, a)
            == Ip4HdrSummed(Tos4(f), L4Len(f) + 20, if IsFrag4(f) then Id4(f) else 0,
                            if IsFrag4(f) then Off4(f) + (if More4(f) then IP_MF else 0) else IP_DF,
                            hop, Proto4(f), Src4(f), Dst4(f))
  {
    QuoteFields(cfg, f, g, a, n, hop);
    QuoteReads(cfg, f, g, a, n, hop);
    QuoteFragReads(cfg, f, g, a, n, hop);
    assert Mapped(cfg, Dst4(f))[12..] == Dst4(f);
    assert Proto(NextHeader(Proto4(f))) == Proto4(f);
  }

  // ---- the quoted transport bytes

  /** The quoted transport bytes as the pod gets them, in terms of the packet the router saw. */
  lemma QuoteRelReads(cfg: Config, mode: Mode, f: bytes, g: bytes, e: bytes, h: bytes, n: nat, hop: byte, exact: bool)
    requires |e| >= 62 && Quotes(cfg, f, g, Rest6(e), n, hop) && Reversible(Proto4(f)) && IsError(e, Rest6(e))
    requires Rel6(cfg, mode, e, h, exact)
    ensures |h| >= 62 && InComplete(Rest6(e)) && |Out6(f, g)| == |Rest4(f)| >= n - HdrLen(f)
    ensures Quoted(Rest6(e)) == Out6(f, g)[..n - HdrLen(f)]
    ensures QuoteRel(cfg, Rest6(e), Quoted(Rest6(e)), h[62..], exact)
  {
    var a := Rest6(e);
    QuoteReads(cfg, f, g, a, n, hop);
    QuoteTransport(cfg, f, g, a, n, hop);
    L4Rel6Length(cfg, mode, e, a, h[34..], exact);
    TailOfTail(h, 34, 28);
  }

  /** The field of an embedded checksum: the original's class exactly when the plain addition did
      not wrap, which it cannot if the quoted field is not below the representative of the
      difference. */
  ghost predicate ComesBack(d: u32, x: u16, y: u16, z: u16, delta: int) {
    && PlainPatch(d, y, z, 0 - delta)
    && (Cong(z, x) <==> d as int + 0xffff - y as int < 0x1_0000_0000)
    && (Rep(0 - delta) <= y as int ==> Cong(z, x))
  }

  lemma PlainReturns(mode: Mode, x: u16, y: u16, z: u16, delta: int, mangled: bool) returns (d: u32)
    requires !mode.SumPartial? && FieldMoved(mode, x, y, delta, mangled) && InnerPatched(y, z, 0 - delta)
    ensures ComesBack(d, x, y, z, delta)
  {
    d :| PlainPatch(d, y, z, 0 - delta);
    PlainPatchExact(d, y, z, 0 - delta);
    WrapPossibleExactly(y, 0 - delta);
    CongOffset(y, x as int - delta, delta);
    SameClass(z, y as int + delta, x);
  }

  lemma SameClass(z: int, y: int, x: int)
    requires Cong(y, x)
    ensures Cong(z, y) <==> Cong(z, x)
  {
    CongSym(y, x);
    if Cong(z, y) {
      CongTrans(z, y, x);
    }
    if Cong(z, x) {
      CongTrans(z, x, y);
    }
  }

  /** `r` is the start of `x` but for the field at `off`, which comes back in its class unless the
      addition wrapped, or as zero if it went out as zero. */
  ghost predicate QuoteReturned(x: bytes, b: bytes, r: bytes, off: nat, delta: int) {
    && off + 2 <= |r| <= |x| == |b|
    && r == Splice(x[..|r|], off, Le16(GetLe16(r, off)))
    && if GetLe16(b, off) == 0 then GetLe16(r, off) == 0
       else exists d: u32 :: ComesBack(d, GetLe16(x, off), GetLe16(b, off), GetLe16(r, off), delta)
  }

  lemma FieldComesBack(mode: Mode, x: bytes, b: bytes, r: bytes, k: nat, off: nat, delta: int, mangled: bool)
    requires !mode.SumPartial? && FieldPatched(mode, x, b, off, delta, mangled)
    requires off + 2 <= k <= |b|
    requires if GetLe16(b, off) == 0 then r == b[..k] else FieldReplaced(b[..k], r, off, 0 - delta)
    ensures QuoteReturned(x, b, r, off, delta)
  {
    var y, z := GetLe16(b, off), GetLe16(r, off);
    assert b[..k] == Splice(x[..k], off, Le16(y));
    assert GetLe16(b[..k], off) == y;
    if y != 0 {
      var d := PlainReturns(mode, GetLe16(x, off), y, z, delta, mangled);
      assert r == Splice(b[..k], off, Le16(z)) == Splice(x[..k], off, Le16(z));
    }
  }

  /** The quoted transport part `h` carries, `k` bytes of it, came back. */
  ghost predicate TransportQuoted(cfg: Config, mode: Mode, f: bytes, g: bytes, h: bytes, k: nat) {
    && Has4(f) && 14 + Ihl(f) <= |f| && Ihl(f) <= TotLen(f) && |g| >= 14 + HdrLen(f) && |h| == 62 + k
    && QuoteReturned(Meant(mode, f), Out6(f, g), h[62..], FieldOffset(Proto4(f)), AddrDelta(cfg, f))
    && (Proto4(f) == UDP || mode.SumPartial? ==> GetLe16(Out6(f, g), FieldOffset(Proto4(f))) != 0)
  }

  /** TCP and UDP, quoted past the checksum. If the checksum the router saw was not zero, the pod
      finds the bytes it meant to send with a checksum of the original's class unless the 32-bit
      addition wrapped; a UDP datagram sent without a checksum is found with the one it should have
      had, and a packet that left with a partial checksum with the completed one. A TCP segment
      seen with checksum zero is quoted as it was seen. */
  lemma QuotedTransportReturns(cfg: Config, m1: Mode, m2: Mode, f: bytes, g: bytes, e: bytes, h: bytes,
                               n: nat, hop: byte)
    requires ErrorAbout(cfg, m1, f, g, e, n, hop) && Rel6(cfg, m2, e, h, true) && HonestPartial(m1, f)
    requires Off4(f) == 0 && (Proto4(f) == TCP || Proto4(f) == UDP)
    requires n - HdrLen(f) >= FieldOffset(Proto4(f)) + 2
    ensures TransportQuoted(cfg, m1, f, g, h, n - HdrLen(f))
  {
    AboutQuotes(cfg, m1, f, g, e, n, hop);
    WireIsPatched(cfg, m1, f, g);
    TransportReturns(cfg, m1, m2, f, g, e, h, n, hop);
  }

  lemma TransportReturns(cfg: Config, m1: Mode, m2: Mode, f: bytes, g: bytes, e: bytes, h: bytes, n: nat, hop: byte)
    requires |e| >= 62 && Quotes(cfg, f, g, Rest6(e), n, hop) && Reversible(Proto4(f)) && IsError(e, Rest6(e))
    requires Rel6(cfg, m2, e, h, true) && Off4(f) == 0 && (Proto4(f) == TCP || Proto4(f) == UDP)
    requires n - HdrLen(f) >= FieldOffset(Proto4(f)) + 2
    requires FieldPatched(SumNone, Meant(m1, f), Out6(f, g), FieldOffset(Proto4(f)), AddrDelta(cfg, f),
                          Proto4(f) == UDP || m1.SumPartial?)
    ensures TransportQuoted(cfg, m1, f, g, h, n - HdrLen(f))
  {
    QuoteRelReads(cfg, m2, f, g, e, h, n, hop, true);
    QuotedChecksumIsOurs(cfg, f, g, Rest6(e), n, hop);
    TransportComesBack(cfg, SumNone, Meant(m1, f), Out6(f, g), Rest6(e), h[62..], n - HdrLen(f),
                       FieldOffset(Proto4(f)), AddrDelta(cfg, f), Proto4(f) == UDP || m1.SumPartial?);
  }

  lemma TransportComesBack(cfg: Config, mode: Mode, x: bytes, b: bytes, a: bytes, r: bytes, k: nat, off: nat,
                           delta: int, mangled: bool)
    requires !mode.SumPartial? && FieldPatched(mode, x, b, off, delta, mangled) && off + 2 <= k <= |b|
    requires InComplete(a) && InUpper(a) != ICMPV6 && ChecksumOffset(InUpper(a)) == off != 0
    requires InFrag4(a) % 0x2000 == 0 && InAddrDelta(cfg, a) == 0 - delta
    requires Quoted(a) == b[..k] && QuoteRel(cfg, a, Quoted(a), r, true)
    ensures QuoteReturned(x, b, r, off, delta)
  {
    assert GetLe16(b[..k], off) == GetLe16(b, off);
    FieldComesBack(mode, x, b, r, k, off, delta, mangled);
  }

  /** The program looks for the quoted checksum where it is, and moves it back by as much as egress
      moved it out. */
  ghost predicate ChecksumIsOurs(cfg: Config, f: bytes, a: bytes)
    requires Has4(f)
  {
    && InComplete(a) && InUpper(a) == Proto4(f) && ChecksumOffset(InUpper(a)) == FieldOffset(Proto4(f))
    && InFrag4(a) % 0x2000 == 0 && InAddrDelta(cfg, a) == 0 - AddrDelta(cfg, f)
  }

  lemma QuotedChecksumIsOurs(cfg: Config, f: bytes, g: bytes, a: bytes, n: nat, hop: byte)
    requires Quotes(cfg, f, g, a, n, hop) && Off4(f) == 0 && (Proto4(f) == TCP || Proto4(f) == UDP)
    ensures ChecksumIsOurs(cfg, f, a)
  {
    QuoteFields(cfg, f, g, a, n, hop);
    QuoteReads(cfg, f, g, a, n, hop);
    QuoteFragReads(cfg, f, g, a, n, hop);
    FirstFragmentWord(InFrag4(a));
    InnerDelta(cfg, f, a);
  }

  lemma FirstFragmentWord(w: int)
    requires w in {0, IP_MF as int, IP_DF as int}
    ensures w % 0x2000 == 0
  {
  }

  lemma InnerDelta(cfg: Config, f: bytes, a: bytes)
    requires Has4(f) && |a| >= 48 && InSrc(a) == cfg.pod6 && InDst(a) == Mapped(cfg, Dst4(f))
    ensures InAddrDelta(cfg, a) == 0 - AddrDelta(cfg, f)
  {
    assert Mapped(cfg, Dst4(f))[12..] == Dst4(f);
  }

  /** An embedded echo: type, code, identifier, sequence and payload are the pod's own. */
  lemma QuotedEchoReturns(cfg: Config, m1: Mode, m2: Mode, f: bytes, g: bytes, e: bytes, h: bytes,
                          n: nat, hop: byte)
    requires ErrorAbout(cfg, m1, f, g, e, n, hop) && Rel6(cfg, m2, e, h, true) && !m1.SumPartial?
    requires Proto4(f) == ICMP
    ensures EchoReturned(cfg, f, g, h) && |h| == 62 + n - HdrLen(f)
  {
    AboutQuotes(cfg, m1, f, g, e, n, hop);
    OnWireIsRel(cfg, m1, f, g);
    QuotedEchoIsOurs(cfg, m1, f, g, Rest6(e), n, hop);
    EchoReturns(cfg, m1, m2, f, g, e, h, n, hop);
  }

  lemma EchoReturns(cfg: Config, m1: Mode, m2: Mode, f: bytes, g: bytes, e: bytes, h: bytes, n: nat, hop: byte)
    requires |e| >= 62 && Quotes(cfg, f, g, Rest6(e), n, hop) && IsError(e, Rest6(e)) && Rel6(cfg, m2, e, h, true)
    requires Proto4(f) == ICMP && !m1.SumPartial? && EchoIsOurs(cfg, m1, f, g, Rest6(e))
    ensures EchoReturned(cfg, f, g, h) && |h| == 62 + n - HdrLen(f)
  {
    QuoteRelReads(cfg, m2, f, g, e, h, n, hop, true);
    var t4 := Rest4(f)[0];
    EchoQuoted(cfg, Rest6(e), h[62..], EchoType6(t4), Out6(f, g), n - HdrLen(f));
    EchoComesBack(m1, Rest4(f), Out6(f, g), h[62..], n - HdrLen(f), t4, EchoType6(t4), EchoDelta(cfg, f, t4));
  }

  /** The quoted echo `h` carries is the start of the pod's own message, but for the checksum. */
  ghost predicate EchoReturned(cfg: Config, f: bytes, g: bytes, h: bytes) {
    && Has4(f) && 14 + Ihl(f) <= |f| && Ihl(f) <= TotLen(f) && |g| >= 14 + HdrLen(f) && |h| >= 62
    && 4 <= |h[62..]| <= |Rest4(f)| == |Out6(f, g)|
    && var r := h[62..];
       && r == Splice(Rest4(f)[..|r|], 2, Le16(GetLe16(r, 2)))
       && exists d: u32 :: ComesBack(d, GetLe16(Rest4(f), 2), GetLe16(Out6(f, g), 2), GetLe16(r, 2),
                                     EchoDelta(cfg, f, Rest4(f)[0]))
  }

  /** The program takes the quoted echo for one, and moves its checksum back by as much as egress
      moved it out. */
  ghost predicate EchoIsOurs(cfg: Config, mode: Mode, f: bytes, g: bytes, a: bytes) {
    && Has4(f) && 14 + Ihl(f) <= |f| && Ihl(f) <= TotLen(f) && |g| >= 14 + HdrLen(f)
    && InComplete(a) && InUpper(a) == ICMPV6 && !InFrag(a) && !IsFrag4(f)
    && |Rest4(f)| >= 4 && Rest4(f)[0] in {ICMP_ECHO, ICMP_ECHOREPLY}
    && FieldPatched(mode, Rest4(f)[0 := EchoType6(Rest4(f)[0])], Out6(f, g), 2, EchoDelta(cfg, f, Rest4(f)[0]), false)
    && Out6(f, g)[0] == EchoType6(Rest4(f)[0])
    && InEchoDelta(a, EchoType6(Rest4(f)[0])) == 0 - EchoDelta(cfg, f, Rest4(f)[0])
  }

  lemma QuotedEchoIsOurs(cfg: Config, mode: Mode, f: bytes, g: bytes, a: bytes, n: nat, hop: byte)
    requires Rel(cfg, mode, f, g) && Quotes(cfg, f, g, a, n, hop) && Proto4(f) == ICMP
    ensures EchoIsOurs(cfg, mode, f, g, a)
  {
    QuoteFields(cfg, f, g, a, n, hop);
  }

  lemma EchoQuoted(cfg: Config, a: bytes, r: bytes, t6: byte, b: bytes, k: nat)
    requires InComplete(a) && InUpper(a) == ICMPV6 && !InFrag(a) && IsEcho6(t6)
    requires |b| >= 1 && b[0] == t6 && k <= |b| && Quoted(a) == b[..k]
    requires |a| >= 8 && ErrorDecision(cfg, a) == Translate && QuoteRel(cfg, a, Quoted(a), r, true)
    ensures 4 <= k && FieldReplaced(b[..k][0 := EchoType4(t6)], r, 2, InEchoDelta(a, t6))
  {
  }

  lemma EchoComesBack(mode: Mode, x: bytes, b: bytes, r: bytes, k: nat, t4: byte, t6: byte, delta: int)
    requires !mode.SumPartial? && |x| >= 4 && x[0] == t4 && FieldPatched(mode, x[0 := t6], b, 2, delta, false)
    requires 4 <= k <= |b| && FieldReplaced(b[..k][0 := t4], r, 2, 0 - delta)
    ensures 4 <= |r| <= |x| == |b| && r == Splice(x[..|r|], 2, Le16(GetLe16(r, 2)))
    ensures exists d: u32 :: ComesBack(d, GetLe16(x, 2), GetLe16(b, 2), GetLe16(r, 2), delta)
  {
    var y, z := GetLe16(b, 2), GetLe16(r, 2);
    assert b[..k][0 := t4] == Splice(x[..k], 2, Le16(y));
    assert GetLe16(b[..k][0 := t4], 2) == y;
    var d := PlainReturns(mode, GetLe16(x, 2), y, z, delta, false);
    assert r == Splice(Splice(x[..k], 2, Le16(y)), 2, Le16(z));
  }

  /** The frame carries a transport checksum field. */
  predicate HasField(f: bytes) {
    && Has4(f) && 14 + Ihl(f) <= |f| && Ihl(f) <= TotLen(f) && Off4(f) == 0
    && Proto4(f) in {TCP, UDP, ICMP} && FieldOffset(Proto4(f)) + 2 <= |Rest4(f)|
  }

  /** The checksum the router saw. */
  ghost function OutField(f: bytes, g: bytes): (y: u16)
    requires HasField(f)
  {
    var b := g[if |g| < HdrLen(f) + 14 then |g| else HdrLen(f) + 14..];
    if |b| >= FieldOffset(Proto4(f)) + 2 then GetLe16(b, FieldOffset(Proto4(f))) else 0
  }

  /** By how much egress moved it. */
  ghost function OutDelta(cfg: Config, f: bytes): int
    requires HasField(f)
  {
    if Proto4(f) == ICMP then EchoDelta(cfg, f, Rest4(f)[0]) else AddrDelta(cfg, f)
  }

  /** The embedded checksum `h` ends up with is in the class of what the pod meant to send. */
  ghost predicate EmbeddedReturned(mode: Mode, f: bytes, h: bytes)
    requires HasField(f)
  {
    && |h| >= 62 + FieldOffset(Proto4(f)) + 2
    && Cong(GetLe16(h[62..], FieldOffset(Proto4(f))), GetLe16(Meant(mode, f), FieldOffset(Proto4(f))))
  }

  /** It does in every translation of the error `e`. */
  ghost predicate AlwaysReturned(cfg: Config, m1: Mode, m2: Mode, f: bytes, e: bytes)
    requires HasField(f)
  {
    forall h :: Rel6(cfg, m2, e, h, true) ==> EmbeddedReturned(m1, f, h)
  }

  /** The program moves the checksum back unless it takes it for absent. */
  predicate TakenForAbsent(f: bytes, y: u16)
    requires HasField(f)
  {
    y == 0 && Proto4(f) != ICMP
  }

  /** The embedded checksum returns in its class from every accepted error that quotes it, whatever
      the difference helper answers, exactly when the checksum the router saw is not below the
      representative of the difference; or, for a TCP segment seen with checksum zero, when the
      difference is zero. */
  lemma QuotedChecksumReturnsExactly(cfg: Config, m1: Mode, m2: Mode, f: bytes, g: bytes, e: bytes, n: nat, hop: byte)
    requires HasField(f) && Decision6(cfg, e) == Translate
    requires ErrorAbout(cfg, m1, f, g, e, n, hop) && HonestPartial(m1, f) && (Proto4(f) == ICMP ==> !m1.SumPartial?)
    requires n - HdrLen(f) >= FieldOffset(Proto4(f)) + 2
    ensures AlwaysReturned(cfg, m1, m2, f, e)
            <==> if TakenForAbsent(f, OutField(f, g)) then Cong(OutDelta(cfg, f), 0)
                 else Rep(0 - OutDelta(cfg, f)) <= OutField(f, g) as int
  {
    if TakenForAbsent(f, OutField(f, g)) {
      AboutQuotes(cfg, m1, f, g, e, n, hop);
      SeenField(cfg, m1, f, g);
      AbsentExactly(cfg, m1, m2, f, g, e, n, hop);
    } else {
      FieldIsFound(cfg, m1, f, g, e, n, hop);
      ReturnsExactly(cfg, m1, m2, f, e, Rest6(e), OutField(f, g), OutDelta(cfg, f));
    }
  }

  lemma FieldIsFound(cfg: Config, mode: Mode, f: bytes, g: bytes, e: bytes, n: nat, hop: byte)
    requires HasField(f) && !TakenForAbsent(f, OutField(f, g))
    requires ErrorAbout(cfg, mode, f, g, e, n, hop) && HonestPartial(mode, f) && (Proto4(f) == ICMP ==> !mode.SumPartial?)
    requires n - HdrLen(f) >= FieldOffset(Proto4(f)) + 2
    ensures FieldQuoted(cfg, mode, f, Rest6(e), OutField(f, g), OutDelta(cfg, f))
  {
    AboutQuotes(cfg, mode, f, g, e, n, hop);
    SeenField(cfg, mode, f, g);
    QuotedFieldIsOurs(cfg, mode, f, g, Rest6(e), n, hop);
  }

  /** What the far end saw of the field, and an echo's type. */
  ghost predicate FieldSeen(cfg: Config, mode: Mode, f: bytes, g: bytes)
    requires HasField(f)
  {
    && |g| >= 14 + HdrLen(f) && |Out6(f, g)| == |Rest4(f)|
    && Cong(OutField(f, g), GetLe16(Meant(mode, f), FieldOffset(Proto4(f))) as int - OutDelta(cfg, f))
    && (Proto4(f) == ICMP ==> Rest4(f)[0] in {ICMP_ECHO, ICMP_ECHOREPLY}
                              && Out6(f, g)[0] == EchoType6(Rest4(f)[0]))
  }

  lemma SeenField(cfg: Config, mode: Mode, f: bytes, g: bytes)
    requires HasField(f) && OnWire(cfg, mode, f, g) && HonestPartial(mode, f) && (Proto4(f) == ICMP ==> !mode.SumPartial?)
    ensures FieldSeen(cfg, mode, f, g)
  {
    if Proto4(f) == ICMP {
      OnWireIsRel(cfg, mode, f, g);
      SeenEcho(cfg, mode, f, g);
    } else {
      WireIsPatched(cfg, mode, f, g);
      SeenPatch(cfg, mode, f, g);
    }
  }

  lemma SeenPatch(cfg: Config, mode: Mode, f: bytes, g: bytes)
    requires HasField(f) && Proto4(f) != ICMP && |g| >= 14 + HdrLen(f) && |Out6(f, g)| == |Rest4(f)|
    requires FieldPatched(SumNone, Meant(mode, f), Out6(f, g), FieldOffset(Proto4(f)), AddrDelta(cfg, f),
                          Proto4(f) == UDP || mode.SumPartial?)
    ensures FieldSeen(cfg, mode, f, g)
  {
  }

  lemma SeenEcho(cfg: Config, mode: Mode, f: bytes, g: bytes)
    requires HasField(f) && Rel(cfg, mode, f, g) && Proto4(f) == ICMP && !mode.SumPartial?
    ensures FieldSeen(cfg, mode, f, g)
  {
    EgressHeader(cfg, mode, f, g);
    AsSentIsSent(f);
    assert GetLe16(Rest4(f)[0 := EchoType6(Rest4(f)[0])], 2) == GetLe16(Rest4(f), 2);
  }

  /** The program finds the checksum `y` the router saw in the quote `a`, and moves it by `-delta`. */
  ghost predicate FieldQuoted(cfg: Config, mode: Mode, f: bytes, a: bytes, y: u16, delta: int)
    requires HasField(f)
  {
    && InComplete(a) && Patches(a) && PatchOffset(a) == FieldOffset(Proto4(f)) && PatchDelta(cfg, a) == 0 - delta
    && GetLe16(Quoted(a), PatchOffset(a)) == y
    && Cong(y, GetLe16(Meant(mode, f), FieldOffset(Proto4(f))) as int - delta)
  }

  lemma QuotedFieldIsOurs(cfg: Config, mode: Mode, f: bytes, g: bytes, a: bytes, n: nat, hop: byte)
    requires HasField(f) && FieldSeen(cfg, mode, f, g) && !TakenForAbsent(f, OutField(f, g))
    requires Quotes(cfg, f, g, a, n, hop) && n - HdrLen(f) >= FieldOffset(Proto4(f)) + 2
    ensures FieldQuoted(cfg, mode, f, a, OutField(f, g), OutDelta(cfg, f))
  {
    QuoteFields(cfg, f, g, a, n, hop);
    QuoteReads(cfg, f, g, a, n, hop);
    QuoteTransport(cfg, f, g, a, n, hop);
    if Proto4(f) != ICMP {
      QuotedChecksumIsOurs(cfg, f, g, a, n, hop);
    }
  }

  lemma ReturnsExactly(cfg: Config, m1: Mode, m2: Mode, f: bytes, e: bytes, a: bytes, y: u16, delta: int)
    requires HasField(f) && FieldQuoted(cfg, m1, f, a, y, delta)
    requires Decision6(cfg, e) == Translate && a == Rest6(e) && IsError(e, a)
    ensures AlwaysReturned(cfg, m1, m2, f, e) <==> Rep(0 - delta) <= y as int
  {
    EmbeddedChecksumExact(cfg, m2, e);
    SameVerdicts(cfg, m1, m2, f, e, a, y, delta);
  }

  lemma SameVerdicts(cfg: Config, m1: Mode, m2: Mode, f: bytes, e: bytes, a: bytes, y: u16, delta: int)
    requires HasField(f) && FieldQuoted(cfg, m1, f, a, y, delta)
    ensures AlwaysRight(cfg, m2, e, a) <==> AlwaysReturned(cfg, m1, m2, f, e)
  {
    forall h
      ensures EmbeddedRight(cfg, a, h) <==> EmbeddedReturned(m1, f, h)
    {
      EmbeddedAgrees(cfg, m1, f, a, h, y, delta);
    }
  }

  lemma EmbeddedAgrees(cfg: Config, mode: Mode, f: bytes, a: bytes, h: bytes, y: u16, delta: int)
    requires HasField(f) && FieldQuoted(cfg, mode, f, a, y, delta)
    ensures EmbeddedRight(cfg, a, h) <==> EmbeddedReturned(mode, f, h)
  {
    if |h| >= 62 + PatchOffset(a) + 2 {
      var x := GetLe16(Meant(mode, f), FieldOffset(Proto4(f)));
      CongOffset(y, x as int - delta, delta);
      SameClass(GetLe16(h[62..], PatchOffset(a)), y as int + delta, x);
    }
  }

  /** A checksum seen as zero stays zero. */
  lemma AbsentExactly(cfg: Config, m1: Mode, m2: Mode, f: bytes, g: bytes, e: bytes, n: nat, hop: byte)
    requires HasField(f) && FieldSeen(cfg, m1, f, g) && TakenForAbsent(f, OutField(f, g)) && Reversible(Proto4(f))
    requires |e| >= 62 && Quotes(cfg, f, g, Rest6(e), n, hop) && n - HdrLen(f) >= FieldOffset(Proto4(f)) + 2
    requires Decision6(cfg, e) == Translate && IsError(e, Rest6(e))
    ensures AlwaysReturned(cfg, m1, m2, f, e) <==> Cong(OutDelta(cfg, f), 0)
  {
    var x := GetLe16(Meant(m1, f), FieldOffset(Proto4(f)));
    ZeroIsRight(x, OutDelta(cfg, f));
    forall h | Rel6(cfg, m2, e, h, true)
      ensures EmbeddedReturned(m1, f, h) <==> Cong(OutDelta(cfg, f), 0)
    {
      AbsentStays(cfg, m2, f, g, e, h, n, hop);
    }
    var h := IngressTranslation(cfg, m2, e);
  }

  lemma AbsentStays(cfg: Config, mode: Mode, f: bytes, g: bytes, e: bytes, h: bytes, n: nat, hop: byte)
    requires HasField(f) && TakenForAbsent(f, OutField(f, g)) && Reversible(Proto4(f))
    requires |e| >= 62 && Quotes(cfg, f, g, Rest6(e), n, hop) && n - HdrLen(f) >= FieldOffset(Proto4(f)) + 2
    requires Rel6(cfg, mode, e, h, true) && IsError(e, Rest6(e))
    ensures |h| >= 62 + FieldOffset(Proto4(f)) + 2 && GetLe16(h[62..], FieldOffset(Proto4(f))) == 0
  {
    QuoteRelReads(cfg, mode, f, g, e, h, n, hop, true);
    QuotedChecksumIsOurs(cfg, f, g, Rest6(e), n, hop);
  }

  lemma ZeroIsRight(x: u16, delta: int)
    requires Cong(0, x as int - delta)
    ensures Cong(0, x) <==> Cong(delta, 0)
  {
    CongOffset(0, x as int - delta, delta);
    if Cong(0, x) {
      CongSym(0, x);
      CongTrans(delta, x, 0);
    }
    if Cong(delta, 0) {
      CongSym(delta, 0);
      CongTrans(0, delta, x);
    }
  }

  /** Whatever was quoted and however far, refusals included: every transport byte but checksum
      and echo type is the pod's own. */
  lemma QuotedBytesReturn(cfg: Config, m1: Mode, m2: Mode, f: bytes, g: bytes, e: bytes, h: bytes,
                          n: nat, hop: byte, exact: bool, i: nat)
    requires ErrorAbout(cfg, m1, f, g, e, n, hop) && Rel6(cfg, m2, e, h, exact)
    requires i < n - HdrLen(f) && (Off4(f) != 0 || !Mutable(Proto4(f), i))
    ensures |h| == 62 + n - HdrLen(f) && i < |Rest4(f)| && h[62 + i] == Rest4(f)[i]
  {
    AboutQuotes(cfg, m1, f, g, e, n, hop);
    WireCarriesBytes(cfg, m1, f, g, i);
    QuoteRelReads(cfg, m2, f, g, e, h, n, hop, exact);
    QuoteKinds(cfg, f, g, Rest6(e), n, hop);
    QuoteKeepsByte(cfg, Rest6(e), h[62..], exact, i);
  }

  /** What the program takes for an echo or a checksum in the quote is one. */
  lemma QuoteKinds(cfg: Config, f: bytes, g: bytes, a: bytes, n: nat, hop: byte)
    requires Quotes(cfg, f, g, a, n, hop) && Reversible(Proto4(f))
    ensures InComplete(a)
    ensures QuotesEcho(a) ==> Proto4(f) == ICMP && Off4(f) == 0
    ensures QuotesChecksum(a) ==> Proto4(f) in {TCP, UDP} && Off4(f) == 0
                                  && ChecksumOffset(InUpper(a)) == FieldOffset(Proto4(f))
  {
    QuoteReads(cfg, f, g, a, n, hop);
    QuoteFragReads(cfg, f, g, a, n, hop);
    if Off4(f) != 0 {
      LaterFragmentWord(Off4(f), More4(f));
    }
  }

  lemma LaterFragmentWord(off: nat, more: bool)
    requires 0 < off < 0x2000
    ensures (off + (if more then IP_MF else 0)) % 0x2000 != 0
  {
  }

  /** Such an error is accepted, whoever sent it, exactly if ICMPv4 has words for it and a quoted
      echo is quoted past its checksum; the others are counted as unsupported or as a bad quote, but
      for an error of unknown type from outside the prefix, which is left to the stack. */
  lemma ErrorAccepted(cfg: Config, mode: Mode, f: bytes, g: bytes, e: bytes, n: nat, hop: byte)
    requires ErrorAbout(cfg, mode, f, g, e, n, hop)
    requires Version6(e) == 6 && Dst6(e) == cfg.pod6 && Nh6(e) == ICMPV6
    ensures Decision6(cfg, e) ==
            if !(1 <= e[54] <= 4) && e[22..34] != cfg.prefix[..12] then Pass
            else if !Octets.SayableError(e[54..]) then Drop(IngressIcmpUnsupported)
            else if Proto4(f) == ICMP && n - HdrLen(f) < 4 then Drop(IngressIcmpInner)
            else Translate
  {
    AboutQuotes(cfg, mode, f, g, e, n, hop);
    QuoteAccepted(cfg, f, g, e, n, hop);
  }

  lemma QuoteAccepted(cfg: Config, f: bytes, g: bytes, e: bytes, n: nat, hop: byte)
    requires |e| >= 62 && IsError(e, Rest6(e)) && Quotes(cfg, f, g, Rest6(e), n, hop) && Reversible(Proto4(f))
    requires Version6(e) == 6 && Dst6(e) == cfg.pod6 && Nh6(e) == ICMPV6
    ensures Decision6(cfg, e) ==
            if !(1 <= e[54] <= 4) && e[22..34] != cfg.prefix[..12] then Pass
            else if !Octets.SayableError(e[54..]) then Drop(IngressIcmpUnsupported)
            else if Proto4(f) == ICMP && n - HdrLen(f) < 4 then Drop(IngressIcmpInner)
            else Translate
  {
    var a := Rest6(e);
    assert a == e[54..] && Src6(e)[..12] == e[22..34];
    QuoteFields(cfg, f, g, a, n, hop);
    QuoteReads(cfg, f, g, a, n, hop);
    QuoteTransport(cfg, f, g, a, n, hop);
    assert Mapped(cfg, Dst4(f))[..12] == cfg.prefix[..12];
    assert QuotesOurFlow(cfg, a);
    Octets.SayableMeans(a[0], a[1], GetBe32(a, 4));
    assert InUpper(a) == ICMPV6 ==> Proto4(f) == ICMP && IsEcho6(Out6(f, g)[0]);
    assert BadQuote(a) <==> Proto4(f) == ICMP && n - HdrLen(f) < 4;
  }
}
