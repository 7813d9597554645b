/** Out and back: a packet translated by `clat_egress`, mirrored by the far end and translated by
    `clat_ingress`. */
module RoundTrip {
  import opened Bytes
  import opened Checksum
  import opened Headers
  import opened Kernel
  import opened Counters
  import opened EgressSpec
  import opened IngressSpec
  import opened EgressTheorems
  import opened IngressTheorems
  import opened Wire

  /** The same packet sent back: addresses swapped at both layers, nothing else touched. */
  function Reply(g: bytes): (s: bytes)
    requires Has6(g)
    ensures |s| == |g|
  {
    g[6..12] + g[..6] + g[12..22] + g[38..54] + g[22..38] + g[54..]
  }

  lemma ReplyReads(g: bytes)
    requires Has6(g)
    ensures var s := Reply(g);
            && EtherType(s) == EtherType(g) && Version6(s) == Version6(g) && Tc6(s) == Tc6(g)
            && PayloadLen(s) == PayloadLen(g) && Nh6(s) == Nh6(g) && Hop6(s) == Hop6(g)
            && Src6(s) == Dst6(g) && Dst6(s) == Src6(g) && s[54..] == g[54..]
  {
    var s := Reply(g);
    assert s[12..22] == g[12..22];
    assert forall i :: 12 <= i < 22 ==> s[i] == s[12..22][i - 12] == g[12..22][i - 12] == g[i];
    assert s[22..38] == g[38..54] && s[38..54] == g[22..38] && s[54..] == g[54..];
  }

  /** Protocols whose number means the same in both families. */
  predicate Reversible(proto: byte) {
    proto != ICMPV6 && !IsExtHdr(proto)
  }

  /** `g` is what the far end sees of `f`, its checksum completed or still partial. */
  ghost predicate Seen(cfg: Config, mode: Mode, f: bytes, g: bytes) {
    && Has4(f) && 20 <= Ihl(f) <= TotLen(f) && 14 + Ihl(f) <= |f| && Src4(f) == cfg.pod4
    && |g| >= 14 + HdrLen(f)
    && (Rel(cfg, mode, f, g) || OnWire(cfg, mode, f, g))
  }

  /** The headers the far end reads. */
  ghost predicate Headed(cfg: Config, f: bytes, g: bytes) {
    && Has4(f) && 20 <= Ihl(f) <= TotLen(f) && 14 + Ihl(f) <= |f| && Src4(f) == cfg.pod4
    && |g| >= 14 + HdrLen(f) && |Out6(f, g)| == |Rest4(f)|
    && Version6(g) == 6 && Tc6(g) == Tos4(f) && Hop6(g) == Ttl4(f)
    && Src6(g) == cfg.pod6 && Dst6(g) == Mapped(cfg, Dst4(f))
    && PayloadLen(g) == L4Len(f) + (if IsFrag4(f) then 8 else 0)
    && (if IsFrag4(f) then IsFrag6(g) && g[54] == NextHeader(Proto4(f)) && Off6(g) == Off4(f)
                           && More6(g) == More4(f) && Id6(g) == Id4(f)
        else Nh6(g) == NextHeader(Proto4(f)))
  }

  /** What the verdict on a reply depends on besides. */
  ghost predicate Answerable(f: bytes, g: bytes)
    requires Has4(f) && |g| >= 14 + HdrLen(f)
  {
    var b := Out6(f, g);
    && (Proto4(f) == ICMP ==> !IsFrag4(f) && |b| >= 4 && IsEcho6(b[0]))
    && (Proto4(f) == TCP && Off4(f) == 0 ==> |b| >= 18)
    && (Proto4(f) == UDP && Off4(f) == 0 ==> |b| >= 8 && GetLe16(b, 6) != 0)
  }

  lemma SeenReads(cfg: Config, mode: Mode, f: bytes, g: bytes)
    requires Seen(cfg, mode, f, g)
    ensures Headed(cfg, f, g) && Answerable(f, g)
  {
    if Rel(cfg, mode, f, g) {
      RelReads(cfg, mode, f, g);
    } else {
      WireReads(cfg, mode, f, g);
    }
  }

  lemma RelReads(cfg: Config, mode: Mode, f: bytes, g: bytes)
    requires Rel(cfg, mode, f, g)
    ensures Headed(cfg, f, g) && Answerable(f, g)
  {
    EgressHeader(cfg, mode, f, g);
    if Proto4(f) == UDP && Off4(f) == 0 {
      EgressUdpNeverZero(cfg, mode, f, g);
    }
  }

  lemma WireReads(cfg: Config, mode: Mode, f: bytes, g: bytes)
    requires OnWire(cfg, mode, f, g)
    ensures Headed(cfg, f, g) && Answerable(f, g)
  {
    if Completes(mode, f) {
      WireHeader(cfg, mode, f, g);
      if Proto4(f) == UDP {
        WireUdpNeverZero(cfg, mode, f, g);
      }
    } else {
      OnWireIsRel(cfg, mode, f, g);
      RelReads(cfg, mode, f, g);
    }
  }

  /** The headers of a reply, in terms of the packet that went out. */
  lemma ReplyFields(cfg: Config, f: bytes, g: bytes)
    requires Headed(cfg, f, g) && |g| >= 62
    ensures var s := Reply(g);
            && |s| >= 62 && Version6(s) == 6 && Dst6(s) == cfg.pod6 && Src6(s) == Mapped(cfg, Dst4(f))
            && InPrefix(cfg, Src6(s)) && Tc6(s) == Tos4(f) && Hop6(s) == Ttl4(f)
            && Source4(cfg, s) == Dst4(f)
            && PayloadLen(s) == L4Len(f) + (if IsFrag4(f) then 8 else 0) && s[54..] == g[54..]
            && Nh6(s) == (if IsFrag4(f) then FRAGMENT else NextHeader(Proto4(f)))
            && (IsFrag4(f) ==> s[54] == NextHeader(Proto4(f)) && Off6(s) == Off4(f) && More6(s) == More4(f)
                               && Id6(s) == Id4(f))
  {
    var s := Reply(g);
    ReplyReads(g);
    assert Mapped(cfg, Dst4(f))[..12] == cfg.prefix[..12] && Mapped(cfg, Dst4(f))[12..] == Dst4(f);
    assert forall i :: 54 <= i < |s| ==> s[i] == s[54..][i - 54] == g[54..][i - 54] == g[i];
  }

  lemma ReplyHeader(cfg: Config, f: bytes, g: bytes)
    requires Headed(cfg, f, g) && |g| >= 62 && Reversible(Proto4(f))
    ensures var s := Reply(g);
            && |s| >= 62 && Version6(s) == 6 && Dst6(s) == cfg.pod6 && Src6(s) == Mapped(cfg, Dst4(f))
            && InPrefix(cfg, Src6(s)) && Tc6(s) == Tos4(f) && Hop6(s) == Ttl4(f)
            && Source4(cfg, s) == Dst4(f)
            && IsFrag6(s) == IsFrag4(f) && Upper6(s) == NextHeader(Proto4(f)) && L4Len6(s) == L4Len(f)
            && (IsFrag4(f) ==> Off6(s) == Off4(f) && More6(s) == More4(f) && Id6(s) == Id4(f))
            && Rest6(s) == Out6(f, g)
  {
    ReplyFields(cfg, f, g);
    TailOfTail(Reply(g), 54, 8);
    TailOfTail(g, 54, 8);
  }

  /** The reply is accepted exactly when the frame is long enough for the program to look at. */
  lemma ReplyAccepted(cfg: Config, mode: Mode, f: bytes, g: bytes)
    requires Seen(cfg, mode, f, g) && Reversible(Proto4(f))
    ensures Decision6(cfg, Reply(g)) == if |g| >= 62 then Translate else Pass
  {
    SeenReads(cfg, mode, f, g);
    AnsweredReply(cfg, f, g);
  }

  lemma AnsweredReply(cfg: Config, f: bytes, g: bytes)
    requires Headed(cfg, f, g) && Answerable(f, g) && Reversible(Proto4(f))
    ensures Decision6(cfg, Reply(g)) == if |g| >= 62 then Translate else Pass
  {
    if |g| >= 62 {
      ReplyHeader(cfg, f, g);
    }
  }

  /** A protocol number that IPv6 reads as an extension header goes out, and its reply is dropped;
      but an unfragmented packet of protocol 44 is taken for a fragment. */
  lemma ReplyRefused(cfg: Config, mode: Mode, f: bytes, g: bytes)
    requires Seen(cfg, mode, f, g) && |g| >= 62 && IsExtHdr(Proto4(f)) && (Proto4(f) != FRAGMENT || IsFrag4(f))
    ensures Decision6(cfg, Reply(g)) == Drop(IngressExtHdr)
  {
    SeenReads(cfg, mode, f, g);
    ReplyFields(cfg, f, g);
  }

  /** Of the packets that go out and come back exactly the reversible ones come back as their own
      protocol. */
  lemma RoundTripProtocol(cfg: Config, m1: Mode, m2: Mode, f: bytes, g: bytes, h: bytes, exact: bool)
    requires Seen(cfg, m1, f, g) && |g| >= 62 && Rel6(cfg, m2, Reply(g), h, exact)
    ensures Has4(h) && (Proto4(h) == Proto4(f) <==> Reversible(Proto4(f)))
  {
    SeenReads(cfg, m1, f, g);
    RepliedProtocol(cfg, m2, f, g, h, exact);
  }

  lemma RepliedProtocol(cfg: Config, mode: Mode, f: bytes, g: bytes, h: bytes, exact: bool)
    requires Headed(cfg, f, g) && |g| >= 62 && Rel6(cfg, mode, Reply(g), h, exact)
    ensures Has4(h) && (Proto4(h) == Proto4(f) <==> Reversible(Proto4(f)))
  {
    ReplyFields(cfg, f, g);
    IngressHeader(cfg, mode, Reply(g), h, exact);
  }

  /** The IPv4 header that comes back: addresses swapped, type of service, time to live and
      protocol as sent, options gone. */
  lemma RoundTripHeader(cfg: Config, m1: Mode, m2: Mode, f: bytes, g: bytes, h: bytes, exact: bool)
    requires Seen(cfg, m1, f, g) && Reversible(Proto4(f)) && |g| >= 62
    requires Rel6(cfg, m2, Reply(g), h, exact)
    ensures Has4(h) && Src4(h) == Dst4(f) && Dst4(h) == Src4(f)
    ensures Tos4(h) == Tos4(f) && Ttl4(h) == Ttl4(f) && Proto4(h) == Proto4(f)
    ensures Ihl(h) == 20 && TotLen(h) == L4Len(f) + 20
    ensures Verifies([], h[14..34])
  {
    SeenReads(cfg, m1, f, g);
    RepliedHeader(cfg, m2, f, g, h, exact);
  }

  lemma RepliedHeader(cfg: Config, mode: Mode, f: bytes, g: bytes, h: bytes, exact: bool)
    requires Headed(cfg, f, g) && Answerable(f, g) && Reversible(Proto4(f)) && |g| >= 62
    requires Rel6(cfg, mode, Reply(g), h, exact)
    ensures Has4(h) && Src4(h) == Dst4(f) && Dst4(h) == Src4(f)
    ensures Tos4(h) == Tos4(f) && Ttl4(h) == Ttl4(f) && Proto4(h) == Proto4(f)
    ensures Ihl(h) == 20 && TotLen(h) == L4Len(f) + 20
    ensures Verifies([], h[14..34])
  {
    ReplyHeader(cfg, f, g);
    ReplyIsNoError(cfg, f, g);
    IngressHeader(cfg, mode, Reply(g), h, exact);
  }

  lemma ReplyIsNoError(cfg: Config, f: bytes, g: bytes)
    requires Headed(cfg, f, g) && Answerable(f, g) && Reversible(Proto4(f)) && |g| >= 62
    ensures !IsError(Reply(g), Rest6(Reply(g)))
  {
    ReplyHeader(cfg, f, g);
  }

  /** Identification, offset and more-fragments come back for a fragment; anything else comes back
      with identification 0 and don't-fragment. */
  lemma RoundTripFragment(cfg: Config, m1: Mode, m2: Mode, f: bytes, g: bytes, h: bytes, exact: bool)
    requires Seen(cfg, m1, f, g) && Reversible(Proto4(f)) && |g| >= 62
    requires Rel6(cfg, m2, Reply(g), h, exact)
    ensures Has4(h) && IsFrag4(h) == IsFrag4(f) && Off4(h) == Off4(f) && More4(h) == More4(f)
    ensures if IsFrag4(f) then Id4(h) == Id4(f) && !Df4(h) else Id4(h) == 0 && Df4(h)
  {
    SeenReads(cfg, m1, f, g);
    RepliedFragment(cfg, m2, f, g, h, exact);
  }

  lemma RepliedFragment(cfg: Config, mode: Mode, f: bytes, g: bytes, h: bytes, exact: bool)
    requires Headed(cfg, f, g) && Reversible(Proto4(f)) && |g| >= 62 && Rel6(cfg, mode, Reply(g), h, exact)
    ensures Has4(h) && IsFrag4(h) == IsFrag4(f) && Off4(h) == Off4(f) && More4(h) == More4(f)
    ensures if IsFrag4(f) then Id4(h) == Id4(f) && !Df4(h) else Id4(h) == 0 && Df4(h)
  {
    var s := Reply(g);
    ReplyFragWord(cfg, f, g);
    assert FragWord(h) == Frag4Word(s) && Id4(h) == FragId(s) by {
      IngressHeader(cfg, mode, s, h, exact);
    }
    if IsFrag4(f) {
      FragmentReads(h, Off4(f), More4(f));
    } else {
      UnfragmentedReads(h);
    }
  }

  lemma ReplyFragWord(cfg: Config, f: bytes, g: bytes)
    requires Headed(cfg, f, g) && Reversible(Proto4(f)) && |g| >= 62
    ensures var s := Reply(g);
            if IsFrag4(f) then Frag4Word(s) == Off4(f) + (if More4(f) then IP_MF else 0) && FragId(s) == Id4(f)
            else Frag4Word(s) == IP_DF && FragId(s) == 0
  {
    ReplyHeader(cfg, f, g);
  }

  lemma FragmentReads(h: bytes, off: nat, more: bool)
    requires Has4(h) && off < 0x2000 && FragWord(h) == off + (if more then IP_MF else 0)
    ensures Off4(h) == off && More4(h) == more && !Df4(h)
  {
  }

  lemma UnfragmentedReads(h: bytes)
    requires Has4(h) && FragWord(h) == IP_DF
    ensures Off4(h) == 0 && !More4(h) && Df4(h)
  {
  }

  // ---- transport bytes

  /** What a field becomes after moving out and back: itself, in the representative the last
      update leaves. */
  function Returned(mangled: bool, x: u16): u16 {
    if mangled then (if x == 0 then 0xffff else x) else (if x == 0xffff then 0 else x)
  }

  /** The field that comes back for a field `x`: in its class; outside partial mode exactly
      `Returned`; in partial mode `x` itself unless that is zero. */
  ghost predicate ComesHome(mode: Mode, mangled: bool, x: u16, z: u16) {
    Cong(z, x) && if mode.SumPartial? then x != 0 ==> z == x else z == Returned(mangled, x)
  }

  lemma FieldReturns(m1: Mode, m2: Mode, x: u16, y: u16, z: u16, delta: int, first: bool, mangled: bool)
    requires m1.SumPartial? <==> m2.SumPartial?
    requires FieldMoved(m1, x, y, delta, first) && FieldMoved(m2, y, z, 0 - delta, mangled)
    ensures ComesHome(m1, mangled, x, z)
  {
    if m1.SumPartial? {
      CongOffset(y, x as int + delta, 0 - delta);
      CongTrans(z, y as int - delta, x);
      if x != 0 {
        CongUnique(z, x);
      }
    } else {
      CongOffset(y, x as int - delta, delta);
      CongTrans(z, y as int + delta, x);
      var w: int := Returned(mangled, x);
      CongRefl(x);
      CongShift(x, x, if mangled then 1 else -1);
      assert Cong(x, w);
      CongTrans(z, x, w);
      CongUnique(z, w);
    }
  }

  /** `c` is `a` but for the field at `off`, which came home. */
  ghost predicate FieldHome(mode: Mode, a: bytes, c: bytes, off: nat, mangled: bool) {
    && |c| == |a| && off + 2 <= |a|
    && c == Splice(a, off, Le16(GetLe16(c, off)))
    && ComesHome(mode, mangled, GetLe16(a, off), GetLe16(c, off))
  }

  lemma PatchReturns(m1: Mode, m2: Mode, a: bytes, b: bytes, c: bytes, off: nat, delta: int, first: bool, mangled: bool)
    requires m1.SumPartial? <==> m2.SumPartial?
    requires FieldPatched(m1, a, b, off, delta, first) && FieldPatched(m2, b, c, off, 0 - delta, mangled)
    ensures FieldHome(m1, a, c, off, mangled)
  {
    FieldReturns(m1, m2, GetLe16(a, off), GetLe16(b, off), GetLe16(c, off), delta, first, mangled);
  }

  /** Swapping source and destination does not change a pseudo-header sum. */
  lemma SwapAddresses(x: bytes, y: bytes)
    requires |x| % 2 == 0 && |y| % 2 == 0
    ensures Le(x + y) == Le(y + x)
  {
    LeConcat(x, y);
    LeConcat(y, x);
  }

  /** `h` is what came back for the TCP or UDP packet `f` that the far end saw as `g`: completed, or
      with a checksum that was partial on the way out and still is on the way back. */
  ghost predicate TransportTrip(cfg: Config, m1: Mode, m2: Mode, f: bytes, g: bytes, h: bytes, exact: bool) {
    && Seen(cfg, m1, f, g) && |g| >= 62 && Off4(f) == 0 && (Proto4(f) == TCP || Proto4(f) == UDP)
    && HonestPartial(m1, f)
    && (if m2.SumPartial? then m1.SumPartial? && Rel(cfg, m1, f, g) else OnWire(cfg, m1, f, g))
    && Rel6(cfg, m2, Reply(g), h, exact)
  }

  /** What the pod meant to send came home. */
  ghost predicate TransportHome(m1: Mode, m2: Mode, f: bytes, h: bytes) {
    && Has4(f) && 14 + Ihl(f) <= |f| && Ihl(f) <= TotLen(f) && |h| >= 34
    && (if m2.SumPartial? then FieldHome(SumPartial, Rest4(f), h[34..], FieldOffset(Proto4(f)), Proto4(f) == UDP)
        else FieldHome(SumNone, Meant(m1, f), h[34..], FieldOffset(Proto4(f)), Proto4(f) == UDP))
  }

  /** TCP and UDP come back byte for byte, but for the representative of the checksum; UDP sent
      without a checksum comes back with the one it should have had, and a packet that left with a
      partial checksum with the completed one. */
  lemma RoundTripTransport(cfg: Config, m1: Mode, m2: Mode, f: bytes, g: bytes, h: bytes, exact: bool)
    requires TransportTrip(cfg, m1, m2, f, g, h, exact)
    ensures TransportHome(m1, m2, f, h)
  {
    ReplyPatched(cfg, m1, m2, f, g, h, exact);
    if m2.SumPartial? {
      StaysPartial(cfg, f, g);
      HomePartial(cfg, m1, m2, f, g, h);
    } else {
      WireIsPatched(cfg, m1, f, g);
      HomeComplete(cfg, m1, m2, f, g, h);
    }
  }

  /** The field that left in `Out6(f, g)` was moved back. */
  ghost predicate MovedBack(cfg: Config, mode: Mode, f: bytes, g: bytes, h: bytes) {
    && Has4(f) && 14 + Ihl(f) <= |f| && Ihl(f) <= TotLen(f) && |g| >= 14 + HdrLen(f) && |h| >= 34
    && FieldPatched(mode, Out6(f, g), h[34..], FieldOffset(Proto4(f)), 0 - AddrDelta(cfg, f), Proto4(f) == UDP)
  }

  lemma HomePartial(cfg: Config, m1: Mode, m2: Mode, f: bytes, g: bytes, h: bytes)
    requires MovedBack(cfg, m2, f, g, h) && m2.SumPartial?
    requires FieldPatched(SumPartial, Rest4(f), Out6(f, g), FieldOffset(Proto4(f)), AddrDelta(cfg, f), Proto4(f) == UDP)
    ensures TransportHome(m1, m2, f, h)
  {
    PatchReturns(SumPartial, m2, Rest4(f), Out6(f, g), h[34..], FieldOffset(Proto4(f)), AddrDelta(cfg, f),
                 Proto4(f) == UDP, Proto4(f) == UDP);
  }

  lemma HomeComplete(cfg: Config, m1: Mode, m2: Mode, f: bytes, g: bytes, h: bytes)
    requires MovedBack(cfg, m2, f, g, h) && !m2.SumPartial?
    requires FieldPatched(SumNone, Meant(m1, f), Out6(f, g), FieldOffset(Proto4(f)), AddrDelta(cfg, f),
                          Proto4(f) == UDP || m1.SumPartial?)
    ensures TransportHome(m1, m2, f, h)
  {
    PatchReturns(SumNone, m2, Meant(m1, f), Out6(f, g), h[34..], FieldOffset(Proto4(f)), AddrDelta(cfg, f),
                 Proto4(f) == UDP || m1.SumPartial?, Proto4(f) == UDP);
  }

  lemma StaysPartial(cfg: Config, f: bytes, g: bytes)
    requires Rel(cfg, SumPartial, f, g) && |g| >= 62 && Off4(f) == 0 && (Proto4(f) == TCP || Proto4(f) == UDP)
    requires HonestPartial(SumPartial, f)
    ensures FieldPatched(SumPartial, Rest4(f), Out6(f, g), FieldOffset(Proto4(f)), AddrDelta(cfg, f), Proto4(f) == UDP)
  {
    EgressHeader(cfg, SumPartial, f, g);
  }

  lemma ReplyPatched(cfg: Config, m1: Mode, m2: Mode, f: bytes, g: bytes, h: bytes, exact: bool)
    requires TransportTrip(cfg, m1, m2, f, g, h, exact)
    ensures MovedBack(cfg, m2, f, g, h)
  {
    SeenReads(cfg, m1, f, g);
    RepliedPatch(cfg, m2, f, g, h, exact);
  }

  lemma ReplyDelta(cfg: Config, f: bytes, s: bytes)
    requires Has4(f) && Src4(f) == cfg.pod4 && |s| >= 62
    requires Dst6(s) == cfg.pod6 && Src6(s) == Mapped(cfg, Dst4(f)) && Source4(cfg, s) == Dst4(f)
    ensures AddrDelta6(cfg, s) == 0 - AddrDelta(cfg, f)
  {
    SwapAddresses(cfg.pod6, Mapped(cfg, Dst4(f)));
    SwapAddresses(cfg.pod4, Dst4(f));
  }

  lemma RepliedPatch(cfg: Config, mode: Mode, f: bytes, g: bytes, h: bytes, exact: bool)
    requires Headed(cfg, f, g) && |g| >= 62 && Off4(f) == 0 && (Proto4(f) == TCP || Proto4(f) == UDP)
    requires Rel6(cfg, mode, Reply(g), h, exact)
    ensures MovedBack(cfg, mode, f, g, h)
  {
    ReplyHeader(cfg, f, g);
    ReplyDelta(cfg, f, Reply(g));
  }

  /** So the round trip gives back what was meant exactly unless that had a TCP checksum of 0xffff:
      all UDP with a checksum and all other TCP come back as sent, and a checksum that is partial
      all the way comes back as it was. */
  lemma RoundTripIsIdentity(cfg: Config, m1: Mode, m2: Mode, f: bytes, g: bytes, h: bytes, exact: bool)
    requires TransportTrip(cfg, m1, m2, f, g, h, exact)
    ensures |h| >= 34 && |Rest4(f)| >= FieldOffset(Proto4(f)) + 2
    ensures IdentityExactly(m1, m2, f, h)
  {
    RoundTripTransport(cfg, m1, m2, f, g, h, exact);
    HomeIsIdentity(m1, m2, f, h);
  }

  ghost predicate IdentityExactly(m1: Mode, m2: Mode, f: bytes, h: bytes)
    requires Has4(f) && 14 + Ihl(f) <= |f| && Ihl(f) <= TotLen(f) && |h| >= 34
    requires |Rest4(f)| >= FieldOffset(Proto4(f)) + 2
  {
    var off := FieldOffset(Proto4(f));
    var bad := if Proto4(f) == UDP then 0 else 0xffff;
    if m2.SumPartial? then GetLe16(Rest4(f), off) != 0 ==> h[34..] == Rest4(f)
    else
      && (h[34..] == Meant(m1, f) <==> GetLe16(Meant(m1, f), off) != bad)
      && (!m1.SumPartial? ==> (h[34..] == Rest4(f) <==> GetLe16(Rest4(f), off) != bad))
  }

  lemma HomeIsIdentity(m1: Mode, m2: Mode, f: bytes, h: bytes)
    requires TransportHome(m1, m2, f, h) && (Proto4(f) == TCP || Proto4(f) == UDP)
    ensures |Rest4(f)| >= FieldOffset(Proto4(f)) + 2 && IdentityExactly(m1, m2, f, h)
  {
    var off := FieldOffset(Proto4(f));
    AsSentIsSent(f);
    SpliceIdentity(if m2.SumPartial? then Rest4(f) else Meant(m1, f), off, GetLe16(h[34..], off));
  }

  lemma SpliceIdentity(a: bytes, off: nat, v: u16)
    requires off + 2 <= |a|
    ensures Splice(a, off, Le16(v)) == a <==> v == GetLe16(a, off)
  {
    var b := Splice(a, off, Le16(v));
    assert GetLe16(b, off) == v;
    if v == GetLe16(a, off) {
      assert Le16(v) == a[off..off + 2];
    }
  }

  /** Echo requests and replies come back with type, identifier, sequence and payload intact, and
      the checksum of the same class. */
  lemma RoundTripEcho(cfg: Config, m1: Mode, m2: Mode, f: bytes, g: bytes, h: bytes, exact: bool)
    requires Seen(cfg, m1, f, g) && (m1.SumPartial? <==> m2.SumPartial?) && |g| >= 62
    requires Proto4(f) == ICMP && Rel6(cfg, m2, Reply(g), h, exact)
    ensures |h| >= 34 && FieldHome(m1, Rest4(f), h[34..], 2, false)
  {
    OnWireIsRel(cfg, m1, f, g);
    RelReads(cfg, m1, f, g);
    EchoReplied(cfg, m1, m2, f, g, h, exact);
  }

  lemma EchoReplied(cfg: Config, m1: Mode, m2: Mode, f: bytes, g: bytes, h: bytes, exact: bool)
    requires Headed(cfg, f, g) && Rel(cfg, m1, f, g) && (m1.SumPartial? <==> m2.SumPartial?) && |g| >= 62
    requires Proto4(f) == ICMP && Rel6(cfg, m2, Reply(g), h, exact)
    ensures |h| >= 34 && FieldHome(m1, Rest4(f), h[34..], 2, false)
  {
    ReplyHeader(cfg, f, g);
    var a := Rest4(f);
    EchoSwaps(cfg, f, Reply(g), a[0]);
    EchoBytes(m1, m2, a, Out6(f, g), h[34..], a[0], EchoType6(a[0]), EchoDelta(cfg, f, a[0]));
  }

  lemma EchoSwaps(cfg: Config, f: bytes, s: bytes, t4: byte)
    requires Has4(f) && Ihl(f) <= TotLen(f) && |s| >= 62 && L4Len6(s) == L4Len(f)
    requires Dst6(s) == cfg.pod6 && Src6(s) == Mapped(cfg, Dst4(f)) && t4 in {ICMP_ECHO, ICMP_ECHOREPLY}
    ensures EchoDelta6(s, EchoType6(t4)) == 0 - EchoDelta(cfg, f, t4) && EchoType4(EchoType6(t4)) == t4
  {
    var n, dst := L4Len(f), Mapped(cfg, Dst4(f));
    SwapAddresses(cfg.pod6, dst);
    Pseudo6Sum(cfg.pod6, dst, ICMPV6, n);
    Pseudo6Sum(dst, cfg.pod6, ICMPV6, n);
  }

  lemma EchoBytes(m1: Mode, m2: Mode, a: bytes, b: bytes, c: bytes, t4: byte, t6: byte, delta: int)
    requires |a| >= 4 && a[0] == t4 && |b| >= 1 && (m1.SumPartial? <==> m2.SumPartial?)
    requires FieldPatched(m1, a[0 := t6], b, 2, delta, false)
    requires FieldPatched(m2, b[0 := t4], c, 2, 0 - delta, false)
    ensures FieldHome(m1, a, c, 2, false)
  {
    var x, y, z := GetLe16(a, 2), GetLe16(b, 2), GetLe16(c, 2);
    FieldReturns(m1, m2, x, y, z, delta, false, false);
    assert b == Splice(a[0 := t6], 2, Le16(y));
    assert b[0 := t4] == Splice(a, 2, Le16(y));
    assert c == Splice(Splice(a, 2, Le16(y)), 2, Le16(z));
  }

  /** Everything else, later fragments included, comes back as it went. */
  lemma RoundTripOther(cfg: Config, m1: Mode, m2: Mode, f: bytes, g: bytes, h: bytes, exact: bool)
    requires Seen(cfg, m1, f, g) && Reversible(Proto4(f)) && |g| >= 62
    requires Off4(f) != 0 || Proto4(f) !in {TCP, UDP, ICMP}
    requires Rel6(cfg, m2, Reply(g), h, exact)
    ensures |h| >= 34 && h[34..] == Rest4(f)
  {
    OnWireIsRel(cfg, m1, f, g);
    RelReads(cfg, m1, f, g);
    ReplyHeader(cfg, f, g);
  }
}
