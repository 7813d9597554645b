/** `clat_egress`, step by step on the buffer, proved against the relation of EgressSpec. */
module Egress {
  import opened Bytes
  import opened Checksum
  import opened Headers
  import opened Kernel
  import opened Counters
  import opened EgressSpec
  import Options
  import UdpChecksum

  /** Patch the field at `off` behind an `l4off`-byte header by a difference. */
  method PatchField(skb: Skb, l4off: nat, off: nat, diff: u32, ghost delta: int, mangle0: bool, enforce: bool)
    returns (ok: bool)
    requires skb.Valid() && ETH_HLEN <= l4off <= |skb.data| && l4off + off <= 0xffff
    requires (l4off + off) % 2 == 0
    requires Cong(diff, delta)
    requires mangle0 && !enforce && l4off + off + 2 <= |skb.data| ==> GetLe16(skb.data, l4off + off) != 0
    modifies skb
    ensures skb.Valid() && skb.l3 == old(skb.l3) && skb.mode == old(skb.mode)
    ensures old(skb.faulted) ==> skb.faulted
    ensures ok ==> l4off + off + 2 <= |old(skb.data)| == |skb.data| && skb.faulted == old(skb.faulted)
                   && skb.data[..l4off] == old(skb.data)[..l4off]
                   && FieldPatched(skb.mode, old(skb.data)[l4off..], skb.data[l4off..], off, delta, mangle0)
    ensures !ok ==> skb.faulted || l4off + off + 2 > |old(skb.data)|
    ensures ok && old(skb.CsumOk()) ==> skb.CsumOk()
  {
    ghost var d := skb.data;
    ok := skb.L4CsumReplace(l4off + off, diff, mangle0, enforce);
    if ok {
      ghost var field := GetLe16(d, l4off + off);
      ghost var next := NewField(skb.mode, field, diff, mangle0, enforce);
      NewFieldMoves(skb.mode, field, diff, delta, mangle0, enforce);
      PatchedBehind(d, l4off, off, next);
    }
  }

  lemma PatchedBehind(d: bytes, l4off: nat, off: nat, v: u16)
    requires l4off + off + 2 <= |d|
    ensures var e := Splice(d, l4off + off, Le16(v));
            && e[..l4off] == d[..l4off]
            && e[l4off..] == Splice(d[l4off..], off, Le16(v))
            && GetLe16(e[l4off..], off) == v
            && GetLe16(d[l4off..], off) == GetLe16(d, l4off + off)
  {
    assert d == d[..l4off] + d[l4off..];
    SpliceTail(d[..l4off], d[l4off..], off, Le16(v));
  }

  /** Strip the options and make room for the IPv6 header and, for a fragment, a Fragment
      header. */
  method MakeRoom(skb: Skb, f: bytes) returns (ok: bool)
    requires skb.Valid() && skb.data == f && Has4(f) && 20 <= Ihl(f)
    modifies skb
    ensures skb.Valid() && skb.mode == old(skb.mode) && (old(skb.faulted) ==> skb.faulted)
    ensures ok ==> old(skb.l3).Ip4? && 14 + Ihl(f) <= |f| && skb.faulted == old(skb.faulted)
                   && |skb.data| == HeadLen(f) + |f| - 14 - Ihl(f)
                   && skb.data[..14] == f[..14] && skb.data[HeadLen(f)..] == f[14 + Ihl(f)..]
    ensures !ok ==> skb.faulted || 14 + Ihl(f) > |f| || old(skb.l3).Ip6?
    ensures ok && old(skb.CsumOk()) ==> skb.CsumOk()
  {
    var optlen := Ihl(f) - 20;
    if optlen != 0 {
      ok := skb.AdjustRoom(-optlen, true);
      if !ok {
        return;
      }
    }
    ghost var rest := f[14 + Ihl(f)..];
    assert skb.l3.Ip4? ==> skb.data[34..] == rest && skb.data[..14] == f[..14];
    ok := skb.ChangeProto(Ip6);
    if !ok {
      return;
    }
    assert skb.data[54..] == rest by {
      assert skb.data[54..] == skb.data[34..][20..];
    }
    if IsFrag4(f) {
      ok := skb.AdjustRoom(8, true);
      if !ok {
        return;
      }
      assert skb.data[..14] == skb.data[..54][..14];
    }
  }

  function HeadLen(f: bytes): nat
    requires Has4(f)
  {
    if IsFrag4(f) then 62 else 54
  }

  /** Write the new headers into the room made for them. */
  method WriteHeaders(cfg: Config, skb: Skb, f: bytes) returns (ok: bool)
    requires skb.Valid() && Has4(f) && 20 <= Ihl(f) <= TotLen(f)
    requires HeadLen(f) <= |skb.data| && skb.data[..14] == f[..14]
    modifies skb
    ensures skb.Valid() && skb.mode == old(skb.mode) && (old(skb.faulted) ==> skb.faulted)
    ensures ok ==> skb.data == Head(cfg, f) + old(skb.data)[HeadLen(f)..] && skb.faulted == old(skb.faulted)
    ensures !ok ==> skb.faulted
    ensures ok && old(skb.CsumOk()) ==> skb.CsumOk()
  {
    var nh := NextHeader(Proto4(f));
    var dst := Mapped(cfg, Dst4(f));
    var isFrag := IsFrag4(f);
    ghost var rest := skb.data[HeadLen(f)..];
    ghost var end := HeadLen(f);
    var h6 := Ip6Hdr(Tos4(f), L4Len(f) + (if isFrag then 8 else 0), if isFrag then FRAGMENT else nh,
                     Ttl4(f), cfg.pod6, dst);
    ghost var d0 := skb.data;
    ok := skb.StoreBytes(ETH_HLEN, h6, true);
    if !ok {
      return;
    }
    SpliceSides(d0, ETH_HLEN, h6, end);
    if isFrag {
      var fh := FragHdr(nh, Off4(f), More4(f), Id4(f));
      ghost var d := skb.data;
      ok := skb.StoreBytes(ETH_HLEN + 40, fh, true);
      if !ok {
        return;
      }
      SpliceSides(d, ETH_HLEN + 40, fh, end);
    }
    HeadWritten(cfg, f, skb.data, h6, rest);
    ok := StoreEtherType(skb, ETHER_IP6);
  }

  /** The Ethernet type is outside `csum`, so it is stored without recomputing. */
  method StoreEtherType(skb: Skb, ether: bytes) returns (ok: bool)
    requires skb.Valid() && |skb.data| >= 14 && |ether| == 2
    modifies skb
    ensures skb.Valid() && skb.l3 == old(skb.l3) && skb.mode == old(skb.mode) && (old(skb.faulted) ==> skb.faulted)
    ensures ok ==> skb.data == old(skb.data)[..12] + ether + old(skb.data)[14..] && skb.faulted == old(skb.faulted)
    ensures !ok ==> skb.faulted
    ensures ok && old(skb.CsumOk()) ==> skb.CsumOk()
  {
    ok := skb.StoreBytes(12, ether, false);
  }

  lemma HeadWritten(cfg: Config, f: bytes, d: bytes, h6: bytes, rest: bytes)
    requires Has4(f) && 20 <= Ihl(f) <= TotLen(f) && HeadLen(f) <= |d| && d[HeadLen(f)..] == rest
    requires h6 == Ip6Hdr(Tos4(f), L4Len(f) + (if IsFrag4(f) then 8 else 0),
                          if IsFrag4(f) then FRAGMENT else NextHeader(Proto4(f)),
                          Ttl4(f), cfg.pod6, Mapped(cfg, Dst4(f)))
    requires d[..HeadLen(f)] == f[..14] + h6
             + if IsFrag4(f) then FragHdr(NextHeader(Proto4(f)), Off4(f), More4(f), Id4(f)) else []
    ensures Head(cfg, f) + rest == d[..12] + ETHER_IP6 + d[14..]
  {
    if IsFrag4(f) {
      var fh := FragHdr(NextHeader(Proto4(f)), Off4(f), More4(f), Id4(f));
      assert f[..14] + h6 + fh == f[..14] + (h6 + fh);
      assert Head(cfg, f) == f[..12] + ETHER_IP6 + (h6 + fh);
      TypeReplaced(f, d, h6 + fh, rest);
    } else {
      assert f[..14] + h6 + [] == f[..14] + h6;
      TypeReplaced(f, d, h6, rest);
    }
  }

  /** Replacing the Ethernet type in front of headers `h`. */
  lemma TypeReplaced(f: bytes, d: bytes, h: bytes, rest: bytes)
    requires |f| >= 14 && 14 + |h| <= |d| && d[..14 + |h|] == f[..14] + h && d[14 + |h|..] == rest
    ensures d[..12] + ETHER_IP6 + d[14..] == f[..12] + ETHER_IP6 + h + rest
  {
    var e := d[..14 + |h|];
    assert d[..12] == e[..12] == f[..12];
    assert d[14..] == e[14..] + rest;
    assert e[14..] == h;
  }

  /** The pseudo-header words the program sums, against the 12-byte pseudo-header. */
  lemma PseudoWords(src: Addr4, dst: Addr4, len: u16)
    ensures Le(src + dst + [0, 0, 0, UDP] + Be32(len)) == Le(Pseudo4(src, dst, UDP, len))
  {
    LeConcat3(src + dst, [0, 0, 0, UDP], Be32(len));
    Le4(0, 0, 0, UDP);
    assert len / 0x1_0000 == 0;
    LeConcat(Be16(0), Be16(len));
    Le2(Be16(0));
    Pseudo4Sum(src, dst, UDP, len);
  }

  /** Decide whether a zero UDP checksum field stands for a zero pseudo-header sum. */
  method PseudoFoldsToZero(f: bytes) returns (zero: bool)
    requires Has4(f) && Ihl(f) <= TotLen(f)
    ensures zero <==> PseudoIsZero(f)
  {
    var p4 := Src4(f) + Dst4(f) + [0, 0, 0, UDP] + Be32(L4Len(f));
    PseudoWords(Src4(f), Dst4(f), L4Len(f));
    Pseudo4Sum(Src4(f), Dst4(f), UDP, L4Len(f));
    var d := CsumDiff([], p4, 0);
    zero := CsumFold(d) == 0;
    CsumFoldSpec(d);
    if Cong(d, 0) {
      CongSym(d, Le(p4));
      CongTrans(Le(p4), d, 0);
    }
    if Cong(Le(p4), 0) {
      CongTrans(d, Le(p4), 0);
    }
  }

  /** A stored 16-bit value behind the header. */
  method StoreField(skb: Skb, l4off: nat, off: nat, v: u16) returns (ok: bool)
    requires skb.Valid() && ETH_HLEN <= l4off && l4off + off + 2 <= |skb.data|
    modifies skb
    ensures skb.Valid() && skb.l3 == old(skb.l3) && skb.mode == old(skb.mode)
    ensures old(skb.faulted) ==> skb.faulted
    ensures ok ==> |skb.data| == |old(skb.data)| && skb.faulted == old(skb.faulted)
                   && skb.data[..l4off] == old(skb.data)[..l4off]
                   && skb.data[l4off..] == Splice(old(skb.data)[l4off..], off, Le16(v))
    ensures !ok ==> skb.faulted
    ensures ok && old(skb.CsumOk()) ==> skb.CsumOk()
  {
    ghost var d := skb.data;
    ok := skb.StoreBytes(l4off + off, Le16(v), true);
    if ok {
      PatchedBehind(d, l4off, off, v);
    }
  }

  method Udp(cfg: Config, skb: Skb, f: bytes, diff: u32) returns (o: Outcome)
    requires skb.Valid() && Has4(f) && 20 <= Ihl(f) <= TotLen(f) && Off4(f) == 0 && Proto4(f) == UDP
    requires |skb.data| >= HeadLen(f) && Cong(diff, AddrDelta(cfg, f))
    modifies skb
    ensures skb.Valid() && skb.mode == old(skb.mode) && (old(skb.faulted) ==> skb.faulted)
    ensures var l4off := HeadLen(f);
            && (o == Translate ==>
                  && L4Decision(f, old(skb.data)[l4off..]) == Translate && l4off <= |skb.data|
                  && skb.data[..l4off] == old(skb.data)[..l4off]
                  && L4Rel(cfg, skb.mode, f, old(skb.data)[l4off..], skb.data[l4off..]))
            && (!skb.faulted ==> o == L4Decision(f, old(skb.data)[l4off..]))
    ensures o != Pass && (o.Drop? ==> IsEgressDrop(o.key))
    ensures o == Translate && old(skb.CsumOk()) ==> skb.CsumOk()
  {
    var l4off := HeadLen(f);
    ghost var a := skb.data[l4off..];
    var ok, check := skb.LoadBytes(l4off + 6, 2);
    if !ok {
      return Drop(EgressTruncated);
    }
    assert GetLe16(check, 0) == GetLe16(a, 6) == GetLe16(skb.data, l4off + 6);
    if GetLe16(check, 0) != 0 {
      ok := PatchField(skb, l4off, 6, diff, AddrDelta(cfg, f), true, false);
      return if ok then Translate else Drop(EgressHelper);
    }
    var zero := PseudoFoldsToZero(f);
    if zero {
      ok := PatchField(skb, l4off, 6, diff, AddrDelta(cfg, f), true, true);
      return if ok then Translate else Drop(EgressHelper);
    }
    if IsFrag4(f) {
      return Drop(EgressFragNoCsum);
    }
    o := UdpFull(cfg, skb, f);
  }

  /** A datagram that really came without a checksum gets a full one. */
  method UdpFull(cfg: Config, skb: Skb, f: bytes) returns (o: Outcome)
    requires skb.Valid() && Has4(f) && 20 <= Ihl(f) <= TotLen(f) && Off4(f) == 0 && Proto4(f) == UDP
    requires !IsFrag4(f) && |skb.data| >= 62 && GetLe16(skb.data[54..], 6) == 0 && !PseudoIsZero(f)
    modifies skb
    ensures skb.Valid() && skb.mode == old(skb.mode) && (old(skb.faulted) ==> skb.faulted)
    ensures o == Translate ==>
              && L4Decision(f, old(skb.data)[54..]) == Translate && 54 <= |skb.data|
              && skb.data[..54] == old(skb.data)[..54]
              && L4Rel(cfg, skb.mode, f, old(skb.data)[54..], skb.data[54..])
    ensures !skb.faulted ==> o == L4Decision(f, old(skb.data)[54..])
    ensures o != Pass && (o.Drop? ==> IsEgressDrop(o.key))
    ensures o == Translate && old(skb.CsumOk()) ==> skb.CsumOk()
  {
    var p6 := Pseudo6(cfg.pod6, Mapped(cfg, Dst4(f)), UDP, L4Len(f));
    var seed := CsumDiff([], p6, 0);
    ghost var a := skb.data[54..];
    var ok, full := UdpChecksum.UdpFullCsum(skb, 54, L4Len(f), seed);
    if !ok {
      return Drop(EgressTooBig);
    }
    assert skb.data[54..54 + L4Len(f)] == a[..L4Len(f)];
    SeedIsPseudo(seed, Le(p6), Le(a[..L4Len(f)]));
    ok := StoreField(skb, 54, 6, full);
    return if ok then Translate else Drop(EgressHelper);
  }

  lemma SeedIsPseudo(seed: u32, pseudo: nat, dgram: nat)
    requires Cong(seed, pseudo)
    ensures UdpChecksum.MangledCsum(seed as int + dgram) == UdpChecksum.MangledCsum(pseudo + dgram)
  {
    var s, p := seed as int + dgram, pseudo + dgram;
    UdpChecksum.MangledCsumSpec(s);
    CongOffset(seed, pseudo, dgram);
    CongOffset(s, p, 0);
    CongTrans(UdpChecksum.MangledCsum(s), 0 - s, 0 - p);
    UdpChecksum.MangledCsumUnique(p, UdpChecksum.MangledCsum(s));
  }

  method Icmp(cfg: Config, skb: Skb, f: bytes) returns (o: Outcome)
    requires skb.Valid() && Has4(f) && 20 <= Ihl(f) <= TotLen(f) && Off4(f) == 0 && Proto4(f) == ICMP
    requires |skb.data| >= HeadLen(f)
    modifies skb
    ensures skb.Valid() && skb.mode == old(skb.mode) && (old(skb.faulted) ==> skb.faulted)
    ensures var l4off := HeadLen(f);
            && (o == Translate ==>
                  && L4Decision(f, old(skb.data)[l4off..]) == Translate && l4off <= |skb.data|
                  && skb.data[..l4off] == old(skb.data)[..l4off]
                  && L4Rel(cfg, skb.mode, f, old(skb.data)[l4off..], skb.data[l4off..]))
            && (!skb.faulted ==> o == L4Decision(f, old(skb.data)[l4off..]))
    ensures o != Pass && (o.Drop? ==> IsEgressDrop(o.key))
    ensures o == Translate && old(skb.CsumOk()) ==> skb.CsumOk()
  {
    var l4off := HeadLen(f);
    ghost var a := skb.data[l4off..];
    var ok, tc := skb.LoadBytes(l4off, 2);
    if !ok {
      return Drop(EgressTruncated);
    }
    var t4 := tc[0];
    assert t4 == a[0];
    if t4 != ICMP_ECHO && t4 != ICMP_ECHOREPLY {
      return Drop(EgressIcmpUnsupported);
    }
    var t6 := EchoType6(t4);
    var p6 := Pseudo6(cfg.pod6, Mapped(cfg, Dst4(f)), ICMPV6, L4Len(f));
    var diff := CsumDiff([], p6, 0);
    diff := EchoDiff(t4, t6, tc[1], diff, Le(p6));
    ghost var d := skb.data;
    ok := skb.StoreBytes(l4off, [t6], true);
    if !ok {
      return Drop(EgressHelper);
    }
    SpliceByte(d, l4off, t6);
    ok := PatchField(skb, l4off, 2, diff, EchoDelta(cfg, f, t4), false, false);
    return if ok then Translate else Drop(EgressHelper);
  }

  /** Add the change of a type byte to a running difference. */
  method EchoDiff(oldType: byte, newType: byte, code: byte, diff: u32, ghost delta: int) returns (r: u32)
    requires Cong(diff, delta)
    ensures Cong(r, delta + newType as int - oldType as int)
  {
    r := CsumDiff([oldType, code, 0, 0], [newType, code, 0, 0], diff);
    Le4(oldType, code, 0, 0);
    Le4(newType, code, 0, 0);
    CongOffset(diff, delta, newType as int - oldType as int);
    CongTrans(r, diff as int + (newType as int - oldType as int), delta + (newType as int - oldType as int));
  }

  method L4(cfg: Config, skb: Skb, f: bytes) returns (o: Outcome)
    requires skb.Valid() && Has4(f) && 20 <= Ihl(f) <= TotLen(f) && Src4(f) == cfg.pod4
    requires |skb.data| >= HeadLen(f)
    modifies skb
    ensures skb.Valid() && skb.mode == old(skb.mode) && (old(skb.faulted) ==> skb.faulted)
    ensures var l4off := HeadLen(f);
            && (o == Translate ==>
                  && L4Decision(f, old(skb.data)[l4off..]) == Translate && l4off <= |skb.data|
                  && skb.data[..l4off] == old(skb.data)[..l4off]
                  && L4Rel(cfg, skb.mode, f, old(skb.data)[l4off..], skb.data[l4off..]))
            && (!skb.faulted ==> o == L4Decision(f, old(skb.data)[l4off..]))
    ensures o != Pass && (o.Drop? ==> IsEgressDrop(o.key))
    ensures o == Translate && old(skb.CsumOk()) ==> skb.CsumOk()
  {
    if Off4(f) != 0 {
      return Translate;
    }
    var diff := CsumDiff(Src4(f) + Dst4(f), cfg.pod6 + Mapped(cfg, Dst4(f)), 0);
    if Proto4(f) == TCP {
      var ok := PatchField(skb, HeadLen(f), 16, diff, AddrDelta(cfg, f), false, false);
      return if ok then Translate else Drop(EgressHelper);
    } else if Proto4(f) == UDP {
      o := Udp(cfg, skb, f, diff);
    } else if Proto4(f) == ICMP {
      o := Icmp(cfg, skb, f);
    } else {
      return Translate;
    }
  }

  /** `clat_egress`. */
  method ClatEgress(cfg: Config, skb: Skb, cnt: CounterMap) returns (act: Action, ghost fate: Outcome)
    requires skb.Valid() && !skb.faulted
    modifies skb, cnt
    ensures skb.Valid()
    ensures act == ActionOf(fate) && cnt.cells == After(old(cnt.cells), EgressTranslated, fate)
    ensures fate == Pass <==> old(skb.linear) < 14 || EtherType(old(skb.data)) != ETHER_IP4
    ensures fate == Pass ==> skb.data == old(skb.data)
    ensures fate.Drop? ==> IsEgressDrop(fate.key)
    ensures fate == Translate ==> old(skb.l3).Ip4? && Rel(cfg, old(skb.mode), old(skb.data), skb.data)
    ensures fate != Pass && !skb.faulted && old(skb.l3).Ip4? ==> fate == Decision(cfg, old(skb.data))
    ensures fate == Translate && old(skb.CsumOk()) ==> skb.CsumOk()
  {
    if skb.linear < ETH_HLEN {
      return ActOk, Pass;
    }
    if EtherType(skb.data) != ETHER_IP4 {
      return ActOk, Pass;
    }
    var f := skb.data;
    var o := HeaderChecks(cfg, skb);
    if o != Translate {
      act := cnt.DropPacket(o.key);
      return act, o;
    }
    var ok := MakeRoom(skb, f);
    if !ok {
      act := cnt.DropPacket(EgressHelper);
      return act, Drop(EgressHelper);
    }
    ok := WriteHeaders(cfg, skb, f);
    if !ok {
      act := cnt.DropPacket(EgressHelper);
      return act, Drop(EgressHelper);
    }
    ghost var d := skb.data;
    assert d[HeadLen(f)..] == Rest4(f) && d[..HeadLen(f)] == Head(cfg, f);
    o := L4(cfg, skb, f);
    if o != Translate {
      act := cnt.DropPacket(o.key);
      return act, o;
    }
    cnt.Count(EgressTranslated);
    return ActOk, Translate;
  }

  /** Everything the program looks at before it touches the packet. */
  method HeaderChecks(cfg: Config, skb: Skb) returns (o: Outcome)
    requires skb.Valid() && 14 <= |skb.data|
    modifies skb`linear, skb`faulted
    ensures skb.Valid() && (old(skb.faulted) ==> skb.faulted)
    ensures o != Pass && (o.Drop? ==> IsEgressDrop(o.key))
    ensures o == Translate ==>
              var f := skb.data;
              && Sane(cfg, f) && !(IsFrag4(f) && Proto4(f) == ICMP)
              && !(Ihl(f) > 20 && Options.Walk(f, 34, Ihl(f) - 20, 0))
              && skb.faulted == old(skb.faulted)
    ensures o != Translate && !skb.faulted ==> o == Decision(cfg, skb.data)
  {
    var ok := skb.EnsureLinear(ETH_HLEN + 20);
    if !ok {
      return Drop(EgressTruncated);
    }
    var f := skb.data;
    if Version(f) != 4 || Ihl(f) < 20 {
      return Drop(EgressTruncated);
    }
    if Src4(f) != cfg.pod4 {
      return Drop(EgressBadSrc);
    }
    if Unmappable(Dst4(f)) {
      return Drop(EgressMcast);
    }
    if TotLen(f) < Ihl(f) {
      return Drop(EgressTruncated);
    }
    if IsFrag4(f) && Proto4(f) == ICMP {
      return Drop(EgressFragNoCsum);
    }
    var optlen := Ihl(f) - 20;
    if optlen != 0 {
      var route := Options.HasSourceRoute(skb, ETH_HLEN + 20, optlen);
      if route {
        return Drop(EgressSrcRoute);
      }
    }
    return Translate;
  }
}
