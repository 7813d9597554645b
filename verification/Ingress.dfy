/** `clat_ingress`, step by step on the buffer, proved against the relation of IngressSpec. */
module Ingress {
  import opened Bytes
  import opened Checksum
  import opened Headers
  import opened Kernel
  import opened Counters
  import opened EgressSpec
  import opened IngressSpec
  import Egress

  /** Build a 20-byte IPv4 header: zero field, sum, fold, store. */
  method BuildIp4(tos: byte, totLen: nat, id: nat, frag: nat, ttl: byte, proto: byte, src: Addr4, dst: Addr4)
    returns (h: bytes)
    ensures h == Ip4HdrSummed(tos, totLen, id, frag, ttl, proto, src, dst)
  {
    var blank := Ip4Hdr(tos, totLen, id, frag, ttl, proto, [0, 0], src, dst);
    assert blank[0] == 0x45;
    SumZero(blank, false);
    var d := CsumDiff([], blank, 0);
    FoldIsReference(d, Le(blank));
    h := Ip4Hdr(tos, totLen, id, frag, ttl, proto, Le16(CsumFold(d)), src, dst);
  }

  /** Any non-zero 32-bit representative of a non-zero sum folds to the reference checksum. */
  lemma FoldIsReference(d: u32, t: nat)
    requires Cong(d, t) && d > 0 && t > 0
    ensures CsumFold(d) == Csum(t)
  {
    CsumFoldSpec(d);
    CongOffset(d, t, 0);
    CongTrans(CsumFold(d), 0 - d as int, 0 - t as int);
    CsumUnique(CsumFold(d), t);
  }

  /** Is this frame CLAT return traffic? Only reads. */
  method Select(cfg: Config, skb: Skb) returns (selected: bool)
    requires skb.Valid() && 14 <= |skb.data|
    modifies skb`linear, skb`faulted
    ensures skb.Valid() && (old(skb.faulted) ==> skb.faulted)
    ensures selected ==> Selected(cfg, skb.data) && skb.faulted == old(skb.faulted)
    ensures !selected ==> skb.faulted || !Selected(cfg, skb.data)
  {
    var ok := skb.EnsureLinear(ETH_HLEN + 40 + 8);
    if !ok {
      return false;
    }
    var f := skb.data;
    if Version6(f) != 6 {
      return false;
    }
    if Dst6(f) != cfg.pod6 {
      return false;
    }
    if !InPrefix(cfg, Src6(f)) {
      if Nh6(f) != ICMPV6 {
        return false;
      }
      ok := skb.EnsureLinear(ETH_HLEN + 40 + 8 + 40);
      if !ok {
        return false;
      }
      if f[54] < ICMP6_DEST_UNREACH || f[54] > ICMP6_PARAMPROB {
        return false;
      }
      SliceOfTail(f, 54, 16, 32);
      SliceOfTail(f, 54, 32, 48);
      if f[62] / 16 != 6 || f[70..86] != cfg.pod6 || !InPrefix(cfg, f[86..102]) {
        return false;
      }
    }
    return true;
  }

  /** Drop the Fragment header and shrink the base header. */
  method ShrinkHeaders(skb: Skb, f: bytes) returns (ok: bool)
    requires skb.Valid() && skb.data == f && |f| >= 62
    modifies skb
    ensures skb.Valid() && skb.mode == old(skb.mode) && (old(skb.faulted) ==> skb.faulted)
    ensures ok ==> old(skb.l3).Ip6? && |skb.data| == 34 + |Rest6(f)| && skb.data[..14] == f[..14] && skb.data[34..] == Rest6(f)
                   && skb.l3.Ip4? && skb.faulted == old(skb.faulted)
    ensures !ok ==> skb.faulted || old(skb.l3).Ip4?
    ensures ok && old(skb.CsumOk()) ==> skb.CsumOk()
  {
    if IsFrag6(f) {
      ok := skb.AdjustRoom(-8, true);
      if !ok {
        return;
      }
    }
    assert skb.l3.Ip6? ==> skb.data[..14] == f[..14] && skb.data[54..] == Rest6(f);
    ok := skb.ChangeProto(Ip4);
  }

  /** Write the outer IPv4 header for a packet that loses `shrink` bytes behind it. */
  method StoreOuter(cfg: Config, skb: Skb, f: bytes, shrink: nat) returns (ok: bool)
    requires skb.Valid() && |skb.data| >= 34 && |f| >= 62
    modifies skb
    ensures skb.Valid() && skb.l3 == old(skb.l3) && skb.mode == old(skb.mode)
    ensures old(skb.faulted) ==> skb.faulted
    ensures ok ==> |skb.data| == |old(skb.data)| && skb.data[..14] == old(skb.data)[..14]
                   && skb.data[14..34] == OuterHdr(cfg, f, shrink) && skb.data[34..] == old(skb.data)[34..]
                   && skb.faulted == old(skb.faulted)
    ensures !ok ==> skb.faulted
    ensures ok && old(skb.CsumOk()) ==> skb.CsumOk()
  {
    var h4 := BuildIp4(Tc6(f), (L4Len6(f) + 20 - shrink) % 0x1_0000, FragId(f), Frag4Word(f), Hop6(f),
                       Proto(Upper6(f)), Source4(cfg, f), cfg.pod4);
    ok := skb.StoreBytes(ETH_HLEN, h4, true);
  }

  /** Reshape the frame and write the IPv4 header and the Ethernet type. */
  method Reshape(cfg: Config, skb: Skb, f: bytes) returns (ok: bool)
    requires skb.Valid() && skb.data == f && |f| >= 62
    modifies skb
    ensures skb.Valid() && skb.mode == old(skb.mode) && (old(skb.faulted) ==> skb.faulted)
    ensures ok ==> old(skb.l3).Ip6? && |skb.data| == 34 + |Rest6(f)| && skb.data[..34] == Head4(cfg, f, 0)
                   && skb.data[34..] == Rest6(f) && skb.l3.Ip4? && skb.faulted == old(skb.faulted)
    ensures !ok ==> skb.faulted || old(skb.l3).Ip4?
    ensures ok && old(skb.CsumOk()) ==> skb.CsumOk()
  {
    ok := ShrinkHeaders(skb, f);
    if !ok {
      return;
    }
    ok := StoreOuter(cfg, skb, f, 0);
    if !ok {
      return;
    }
    ghost var d := skb.data;
    ok := Egress.StoreEtherType(skb, ETHER_IP4);
    if ok {
      assert skb.data[..34] == d[..12] + ETHER_IP4 + d[14..34];
      assert d[..12] == d[..14][..12] == f[..12];
    }
  }

  method Udp(cfg: Config, skb: Skb, f: bytes, diff: u32) returns (o: Outcome)
    requires skb.Valid() && |f| >= 62 && L4Len6(f) >= 0 && Upper6(f) == UDP && |skb.data| >= 34
    requires !(IsFrag6(f) && Off6(f) != 0) && Cong(diff, AddrDelta6(cfg, f))
    modifies skb
    ensures skb.Valid() && skb.mode == old(skb.mode) && (old(skb.faulted) ==> skb.faulted)
    ensures o != Pass && (o.Drop? ==> IsIngressDrop(o.key))
    ensures o == Translate ==>
              && L4Decision6(cfg, f, old(skb.data)[34..]) == Translate && 34 <= |skb.data|
              && skb.data[..34] == old(skb.data)[..34]
              && L4Rel6(cfg, skb.mode, f, old(skb.data)[34..], skb.data[34..], !skb.faulted)
    ensures !skb.faulted ==> o == L4Decision6(cfg, f, old(skb.data)[34..])
    ensures o == Translate && old(skb.CsumOk()) ==> skb.CsumOk()
  {
    ghost var a := skb.data[34..];
    var ok, check := skb.LoadBytes(34 + 6, 2);
    if !ok {
      return Drop(IngressTruncated);
    }
    assert GetLe16(check, 0) == GetLe16(a, 6) == GetLe16(skb.data, 40);
    if GetLe16(check, 0) == 0 {
      return Drop(IngressUdpZeroCsum);
    }
    ok := Egress.PatchField(skb, 34, 6, diff, AddrDelta6(cfg, f), true, false);
    return if ok then Translate else Drop(IngressHelper);
  }

  /** The message leaves its pseudo-header behind. */
  method RemovePseudo(p6: bytes) returns (diff: u32)
    requires |p6| == 40
    ensures Cong(diff, 0 - Le(p6))
  {
    diff := CsumDiff(p6, [], 0);
  }

  method Echo(skb: Skb, f: bytes, hdr: bytes, diff: u32) returns (ok: bool)
    requires skb.Valid() && |f| >= 62 && L4Len6(f) >= 0 && |skb.data| >= 42
    requires hdr == skb.data[34..42] && IsEcho6(hdr[0]) && Cong(diff, 0 - Le(IcmpPseudo(f)))
    modifies skb
    ensures skb.Valid() && skb.mode == old(skb.mode) && (old(skb.faulted) ==> skb.faulted)
    ensures ok ==> var a := old(skb.data)[34..];
                   && |skb.data| == |old(skb.data)| && skb.data[..34] == old(skb.data)[..34]
                   && skb.faulted == old(skb.faulted)
                   && FieldPatched(skb.mode, a[0 := EchoType4(a[0])], skb.data[34..], 2, EchoDelta6(f, a[0]), false)
    ensures !ok ==> skb.faulted
    ensures ok && old(skb.CsumOk()) ==> skb.CsumOk()
  {
    ghost var d := skb.data;
    ghost var a := skb.data[34..];
    var t6 := hdr[0];
    var t4 := EchoType4(t6);
    var diff2 := Egress.EchoDiff(t6, t4, hdr[1], diff, 0 - Le(IcmpPseudo(f)));
    ok := skb.StoreBytes(34, [t4], true);
    if !ok {
      return;
    }
    SpliceByte(d, 34, t4);
    ok := Egress.PatchField(skb, 34, 2, diff2, EchoDelta6(f, t6), false, false);
  }

  // ---- ICMPv6 errors

  /** The headers alone say everything about the quoted packet but its transport bytes. */
  lemma HeadersSuffice(cfg: Config, a: bytes, head: bytes)
    requires |a| >= 48 && |head| >= 48 && |head| <= |a| && head == a[..|head|]
    requires InComplete(head)
    ensures InComplete(a) && InFrag(a) == InFrag(head) && InUpper(a) == InUpper(head)
    ensures InSrc(a) == InSrc(head) && InDst(a) == InDst(head) && InPlen(a) == InPlen(head)
    ensures InFrag4(a) == InFrag4(head) && InnerHdr(cfg, a) == InnerHdr(cfg, head)
    ensures ErrorMap(a[0], a[1], GetBe32(a, 4)) == ErrorMap(head[0], head[1], GetBe32(head, 4))
    ensures ErrorMap(a[0], a[1], GetBe32(a, 4)).Map? ==> NewError(cfg, a) == NewError(cfg, head)
  {
    SameAddresses(a, head);
  }

  lemma QuotedFieldsSuffice(a: bytes, head: bytes)
    requires InComplete(a) && head == a[..InHdrEnd(a)]
    ensures InComplete(head) && InFrag(a) == InFrag(head) && InUpper(a) == InUpper(head)
    ensures InFrag4(a) == InFrag4(head) && InSrc(a) == InSrc(head) && InDst(a) == InDst(head)
  {
    SameAddresses(a, head);
  }

  lemma SameAddresses(a: bytes, head: bytes)
    requires 48 <= |head| <= |a| && head == a[..|head|]
    ensures InSrc(a) == InSrc(head) && InDst(a) == InDst(head)
  {
    SliceOfHead(a, |head|, 16, 32);
    SliceOfHead(a, |head|, 32, 48);
  }

  /** Load and vet the quoted headers. */
  method LoadQuoted(cfg: Config, skb: Skb, hdr: bytes) returns (ok: bool, head: bytes)
    requires skb.Valid() && |skb.data| >= 42 && hdr == skb.data[34..42]
    requires ErrorMap(hdr[0], hdr[1], GetBe32(hdr, 4)).Map?
    modifies skb`faulted
    ensures old(skb.faulted) ==> skb.faulted
    ensures ok ==> var a := skb.data[34..];
                   && QuotesOurFlow(cfg, a) && InComplete(a) && !IsExtHdr(InUpper(a))
                   && head == a[..InHdrEnd(a)] && skb.faulted == old(skb.faulted)
    ensures !ok ==> skb.faulted || ErrorDecision(cfg, skb.data[34..]) == Drop(IngressIcmpInner)
  {
    ghost var a := skb.data[34..];
    assert hdr == a[..8];
    assert ErrorMap(a[0], a[1], GetBe32(a, 4)) == ErrorMap(hdr[0], hdr[1], GetBe32(hdr, 4));
    ok, head := false, [];
    var okLoad, in6 := skb.LoadBytes(34 + 8, 40);
    if !okLoad {
      return;
    }
    head := hdr + in6;
    assert head == a[..48];
    SameAddresses(a, head);
    if head[8] / 16 != 6 || InSrc(head) != cfg.pod6 || !InPrefix(cfg, InDst(head)) {
      return;
    }
    if InFrag(head) {
      var okFrag, infh := skb.LoadBytes(34 + 8 + 40, 8);
      if !okFrag {
        return;
      }
      head := head + infh;
      assert head == a[..56];
    }
    if IsExtHdr(InUpper(head)) {
      return;
    }
    ok := true;
  }

  /** The ICMPv4 header and the embedded IPv4 header. */
  method BuildError(cfg: Config, head: bytes) returns (new_: bytes)
    requires InComplete(head) && ErrorMap(head[0], head[1], GetBe32(head, 4)).Map?
    ensures new_ == NewError(cfg, head)
  {
    var m := ErrorMap(head[0], head[1], GetBe32(head, 4));
    var in4 := BuildIp4(InTc(head), InPlen(head) as int + 20 - (if InFrag(head) then 8 else 0),
                        InId4(head), InFrag4(head), InHop(head), Proto(InUpper(head)),
                        cfg.pod4, InDst(head)[12..]);
    new_ := [m.kind, m.code, 0, 0] + ErrorWord(head, m) + in4;
  }

  /** Shrink the message, write its new start and rewrite the outer header for the new length. */
  method PlaceError(cfg: Config, skb: Skb, f: bytes, head: bytes, new_: bytes) returns (ok: bool)
    requires skb.Valid() && skb.l3.Ip4? && |f| >= 62
    requires InComplete(head) && |head| == InHdrEnd(head) && |new_| == 28
    requires |skb.data| >= 34 + |head|
    modifies skb
    ensures skb.Valid() && skb.mode == old(skb.mode) && (old(skb.faulted) ==> skb.faulted)
    ensures ok ==> |skb.data| == |old(skb.data)| - Shrinkage(head)
                   && skb.data[..14] == old(skb.data)[..14]
                   && skb.data[14..34] == OuterHdr(cfg, f, Shrinkage(head))
                   && skb.data[34..] == new_ + old(skb.data)[34 + |head|..]
                   && skb.faulted == old(skb.faulted)
    ensures !ok ==> skb.faulted
    ensures ok && old(skb.CsumOk()) ==> skb.CsumOk()
  {
    var shrink: int := Shrinkage(head);
    ghost var before := skb.data;
    ok := skb.AdjustRoom(-shrink, true);
    if !ok {
      return;
    }
    assert skb.data[..14] == before[..14] && skb.data[62..] == before[34 + |head|..];
    ok := skb.StoreBytes(34, new_, true);
    if !ok {
      return;
    }
    assert skb.data[..14] == before[..14] && skb.data[34..] == new_ + before[34 + |head|..];
    ok := StoreOuter(cfg, skb, f, shrink);
  }

  /** `nc = csum_fold(d + ~oc)` on plain 32-bit integers. */
  method PlainUpdate(d: u32, oc: u16, ghost delta: int) returns (nc: u16)
    requires Cong(d, delta)
    ensures InnerPatched(oc, nc, delta)
  {
    nc := CsumFold((d as int + (0xffff - oc as int)) % 0x1_0000_0000);
    assert PlainPatch(d, oc, nc, delta);
  }

  /** A changed 16-bit field joins a running difference. */
  method FieldDiff(oc: u16, nc: u16, d: u32) returns (r: u32)
    ensures Cong(r, d as int - oc as int + nc as int)
  {
    var ow, nw := Le16(oc) + [0, 0], Le16(nc) + [0, 0];
    r := CsumDiff(ow, nw, d);
    LeConcat(Le16(oc), [0, 0]);
    LeConcat(Le16(nc), [0, 0]);
    Le2(Le16(oc));
    Le2(Le16(nc));
    Le2([0, 0]);
  }

  /** Rewrite one field of the quoted transport bytes at `62 + off`. */
  method PatchQuote(skb: Skb, off: nat, oc: u16, change: u32, d: u32, ghost delta: int)
    returns (ok: bool, r: u32)
    requires skb.Valid() && 62 + off + 2 <= |skb.data| && off % 2 == 0
    requires oc == GetLe16(skb.data[62..], off) && Cong(change, delta)
    modifies skb
    ensures skb.Valid() && skb.mode == old(skb.mode) && (old(skb.faulted) ==> skb.faulted)
    ensures ok ==> |skb.data| == |old(skb.data)| && skb.data[..62] == old(skb.data)[..62]
                   && FieldReplaced(old(skb.data)[62..], skb.data[62..], off, delta)
                   && Cong(r, d as int + Le(skb.data[62..]) - Le(old(skb.data)[62..]))
                   && skb.faulted == old(skb.faulted)
    ensures !ok ==> skb.faulted
    ensures ok && old(skb.CsumOk()) ==> skb.CsumOk()
  {
    r := d;
    ghost var q := skb.data[62..];
    var nc := PlainUpdate(change, oc, delta);
    ok := Egress.StoreField(skb, 62, off, nc);
    if !ok {
      return;
    }
    LeField(q, off, nc);
    assert GetLe16(skb.data[62..], off) == nc;
    r := FieldDiff(oc, nc, d);
  }

  /** The quoted transport bytes. */
  method RewriteQuote(cfg: Config, skb: Skb, ghost a: bytes, head: bytes, d: u32) returns (o: Outcome, r: u32)
    requires skb.Valid() && InComplete(a) && head == a[..InHdrEnd(a)]
    requires |skb.data| >= 62 && skb.data[62..] == Quoted(a)
    modifies skb
    ensures skb.Valid() && skb.mode == old(skb.mode) && (old(skb.faulted) ==> skb.faulted)
    ensures o == Translate ==>
              && |skb.data| == |old(skb.data)| && skb.data[..62] == old(skb.data)[..62]
              && QuoteRel(cfg, a, Quoted(a), skb.data[62..], !skb.faulted)
              && Cong(r, d as int + Le(skb.data[62..]) - Le(Quoted(a)))
    ensures o != Pass && (o.Drop? ==> IsIngressDrop(o.key)) && (o == Translate ==> !BadQuote(a))
    ensures !skb.faulted ==> o == if BadQuote(a) then Drop(IngressIcmpInner) else Translate
    ensures o == Translate && old(skb.CsumOk()) ==> skb.CsumOk()
  {
    r := d;
    CongRefl(d);
    ghost var q := skb.data[62..];
    QuotedFieldsSuffice(a, head);
    if InUpper(head) == ICMPV6 && !InFrag(head) {
      var ok, it := skb.LoadBytes(62, 2);
      if !ok {
        return Drop(IngressIcmpInner), r;
      }
      assert it[0] == q[0];
      if IsEcho6(it[0]) {
        o, r := RewriteEcho(skb, a, head, it, d);
        return;
      }
      return Translate, r;
    }
    o, r := RewriteTransport(cfg, skb, a, head, d);
  }

  /** An embedded TCP or UDP checksum, when the quote reaches that far. */
  method RewriteTransport(cfg: Config, skb: Skb, ghost a: bytes, head: bytes, d: u32) returns (o: Outcome, r: u32)
    requires skb.Valid() && InComplete(a) && head == a[..InHdrEnd(a)]
    requires |skb.data| >= 62 && skb.data[62..] == Quoted(a) && !(InUpper(a) == ICMPV6 && !InFrag(a))
    modifies skb
    ensures skb.Valid() && skb.mode == old(skb.mode) && (old(skb.faulted) ==> skb.faulted)
    ensures o == Translate ==>
              && |skb.data| == |old(skb.data)| && skb.data[..62] == old(skb.data)[..62]
              && QuoteRel(cfg, a, Quoted(a), skb.data[62..], !skb.faulted)
              && Cong(r, d as int + Le(skb.data[62..]) - Le(Quoted(a)))
    ensures o != Pass && (o.Drop? ==> IsIngressDrop(o.key)) && (!skb.faulted ==> o == Translate)
    ensures o == Translate && old(skb.CsumOk()) ==> skb.CsumOk()
  {
    r := d;
    CongRefl(d);
    ghost var q := skb.data[62..];
    QuotedFieldsSuffice(a, head);
    var coff := ChecksumOffset(InUpper(head));
    if coff == 0 || InFrag4(head) % 0x2000 != 0 {
      return Translate, r;
    }
    var ok, oc := skb.LoadBytes(62 + coff, 2);
    if !ok {
      return Translate, r;
    }
    assert GetLe16(oc, 0) == GetLe16(q, coff);
    if GetLe16(oc, 0) == 0 {
      return Translate, r;
    }
    var id6 := CsumDiff(InSrc(head) + InDst(head), cfg.pod4 + InDst(head)[12..], 0);
    ok, r := PatchQuote(skb, coff, GetLe16(oc, 0), id6, d, InAddrDelta(cfg, a));
    return if ok then Translate else Drop(IngressHelper), r;
  }

  /** An embedded echo gets its ICMPv4 type and loses its pseudo-header. */
  method RewriteEcho(skb: Skb, ghost a: bytes, head: bytes, it: bytes, d: u32) returns (o: Outcome, r: u32)
    requires skb.Valid() && InComplete(a) && head == a[..InHdrEnd(a)]
    requires |skb.data| >= 64 && skb.data[62..] == Quoted(a)
    requires InUpper(a) == ICMPV6 && !InFrag(a) && |it| == 2 && it == skb.data[62..64] && IsEcho6(it[0])
    modifies skb
    ensures skb.Valid() && skb.mode == old(skb.mode) && (old(skb.faulted) ==> skb.faulted)
    ensures o == Translate ==>
              && |Quoted(a)| >= 4
              && |skb.data| == |old(skb.data)| && skb.data[..62] == old(skb.data)[..62]
              && FieldReplaced(Quoted(a)[0 := EchoType4(Quoted(a)[0])], skb.data[62..], 2, InEchoDelta(a, Quoted(a)[0]))
              && Cong(r, d as int + Le(skb.data[62..]) - Le(Quoted(a)))
              && skb.faulted == old(skb.faulted)
    ensures o != Pass && (o.Drop? ==> IsIngressDrop(o.key))
    ensures !skb.faulted ==> o == if |Quoted(a)| < 4 then Drop(IngressIcmpInner) else Translate
    ensures o == Translate && old(skb.CsumOk()) ==> skb.CsumOk()
  {
    r := d;
    ghost var q := skb.data[62..];
    var t6 := it[0];
    assert t6 == q[0];
    var nt := EchoType4(t6);
    var idiff := InnerEchoDiff(a, head, it);
    var ok, oc := skb.LoadBytes(62 + 2, 2);
    if !ok {
      return Drop(IngressIcmpInner), r;
    }
    assert GetLe16(oc, 0) == GetLe16(q, 2);
    ghost var before := skb.data;
    ok := skb.StoreBytes(62, [nt], true);
    if !ok {
      return Drop(IngressHelper), r;
    }
    ghost var q1 := q[0 := nt];
    SpliceByte(before, 62, nt);
    LeFirstByte(q, nt);
    CongRefl(d);
    r := Egress.EchoDiff(t6, nt, it[1], d, d);
    ghost var r1 := r;
    ok, r := PatchQuote(skb, 2, GetLe16(oc, 0), idiff, r, InEchoDelta(a, t6));
    if !ok {
      return Drop(IngressHelper), r;
    }
    CongOffset(r1, d as int + Le(q1) - Le(q), Le(skb.data[62..]) - Le(q1));
    CongTrans(r, r1 as int + Le(skb.data[62..]) - Le(q1), d as int + Le(skb.data[62..]) - Le(q));
    return Translate, r;
  }

  /** What an embedded echo's own checksum must move by. */
  method InnerEchoDiff(ghost a: bytes, head: bytes, it: bytes) returns (idiff: u32)
    requires InComplete(a) && head == a[..InHdrEnd(a)] && |it| == 2
    ensures Cong(idiff, InEchoDelta(a, it[0]))
  {
    SameAddresses(a, head);
    var p6 := Pseudo6(InSrc(head), InDst(head), ICMPV6, InPlen(head));
    idiff := RemovePseudo(p6);
    idiff := Egress.EchoDiff(it[0], EchoType4(it[0]), it[1], idiff, 0 - Le(p6));
  }

  /** An ICMPv6 error and the packet it quotes. */
  method Error(cfg: Config, skb: Skb, f: bytes, hdr: bytes, diff: u32) returns (o: Outcome)
    requires skb.Valid() && skb.l3.Ip4? && |f| >= 62 && L4Len6(f) >= 0
    requires |skb.data| >= 42 && hdr == skb.data[34..42] && skb.data[..34] == Head4(cfg, f, 0)
    requires Cong(diff, 0 - Le(IcmpPseudo(f)))
    modifies skb
    ensures skb.Valid() && skb.mode == old(skb.mode) && (old(skb.faulted) ==> skb.faulted)
    ensures o != Pass && (o.Drop? ==> IsIngressDrop(o.key))
    ensures o == Translate ==>
              var a := old(skb.data)[34..];
              && ErrorDecision(cfg, a) == Translate && 34 <= |skb.data|
              && skb.data[..34] == Head4(cfg, f, Shrinkage(a))
              && ErrorRel(cfg, skb.mode, f, a, skb.data[34..], !skb.faulted)
    ensures !skb.faulted ==> o == ErrorDecision(cfg, old(skb.data)[34..])
    ensures o == Translate && old(skb.CsumOk()) ==> skb.CsumOk()
  {
    ghost var a := skb.data[34..];
    ghost var before := skb.data;
    var head, new_, d;
    o, head, new_, d := PrepareError(cfg, skb, hdr, diff);
    if o != Translate {
      return;
    }
    var ok := PlaceError(cfg, skb, f, head, new_);
    if !ok {
      return Drop(IngressHelper);
    }
    PlacedReads(cfg, f, a, before, skb.data, new_);
    o := FinishError(cfg, skb, f, a, head, new_, diff, d);
  }

  /** Vet the error and build what replaces its start. */
  method PrepareError(cfg: Config, skb: Skb, hdr: bytes, diff: u32)
    returns (o: Outcome, head: bytes, new_: bytes, d: u32)
    requires skb.Valid() && |skb.data| >= 42 && hdr == skb.data[34..42]
    modifies skb`faulted
    ensures old(skb.faulted) ==> skb.faulted
    ensures o != Pass && (o.Drop? ==> IsIngressDrop(o.key))
    ensures o == Translate ==>
              var a := skb.data[34..];
              && QuotesOurFlow(cfg, a) && InComplete(a) && !IsExtHdr(InUpper(a))
              && ErrorMap(a[0], a[1], GetBe32(a, 4)).Map?
              && head == a[..InHdrEnd(a)] && InComplete(head) && |head| == InHdrEnd(head)
              && Shrinkage(head) == Shrinkage(a) && new_ == NewError(cfg, a)
              && Cong(d, diff as int - Le(head) + Le(new_))
    ensures !skb.faulted && o != Translate ==> o == ErrorDecision(cfg, skb.data[34..])
  {
    ghost var a := skb.data[34..];
    assert hdr == a[..8];
    head, new_, d := [], [], 0;
    var m := ErrorMap(hdr[0], hdr[1], GetBe32(hdr, 4));
    if m.NoMap? {
      return Drop(IngressIcmpUnsupported), head, new_, d;
    }
    var ok;
    ok, head := LoadQuoted(cfg, skb, hdr);
    if !ok {
      return Drop(IngressIcmpInner), head, new_, d;
    }
    HeadersSuffice(cfg, a, head);
    new_ := BuildError(cfg, head);
    assert |head| == 48 || |head| == 56;
    d := CsumDiff(head, new_, diff);
    return Translate, head, new_, d;
  }

  lemma PlacedReads(cfg: Config, f: bytes, a: bytes, before: bytes, d: bytes, new_: bytes)
    requires |f| >= 62 && InComplete(a) && |new_| == 28
    requires |before| >= 34 && before[34..] == a && before[..34] == Head4(cfg, f, 0)
    requires |d| == |before| - Shrinkage(a) && d[..14] == before[..14]
    requires d[14..34] == OuterHdr(cfg, f, Shrinkage(a)) && d[34..] == new_ + before[34 + InHdrEnd(a)..]
    ensures d[..34] == Head4(cfg, f, Shrinkage(a)) && d[34..62] == new_ && d[62..] == Quoted(a)
  {
    assert before[34 + InHdrEnd(a)..] == Quoted(a);
    assert d[34..62] == d[34..][..28] && d[62..] == d[34..][28..];
    assert d[..34] == d[..14] + d[14..34];
    assert d[..14] == before[..34][..14] == f[..12] + ETHER_IP4;
  }

  /** Rewrite the quoted transport bytes and account for everything in the outer checksum. */
  method FinishError(cfg: Config, skb: Skb, f: bytes, ghost a: bytes, head: bytes, new_: bytes, ghost diff: u32, d: u32)
    returns (o: Outcome)
    requires skb.Valid() && |f| >= 62 && L4Len6(f) >= 0
    requires InComplete(a) && head == a[..InHdrEnd(a)] && QuotesOurFlow(cfg, a) && !IsExtHdr(InUpper(a))
    requires ErrorMap(a[0], a[1], GetBe32(a, 4)).Map? && new_ == NewError(cfg, a)
    requires |skb.data| >= 62 && skb.data[34..62] == new_ && skb.data[62..] == Quoted(a)
    requires Cong(diff, 0 - Le(IcmpPseudo(f))) && Cong(d, diff as int - Le(head) + Le(new_))
    modifies skb
    ensures skb.Valid() && skb.mode == old(skb.mode) && (old(skb.faulted) ==> skb.faulted)
    ensures o != Pass && (o.Drop? ==> IsIngressDrop(o.key))
    ensures o == Translate ==>
              && ErrorDecision(cfg, a) == Translate && 34 <= |skb.data|
              && skb.data[..34] == old(skb.data)[..34]
              && ErrorRel(cfg, skb.mode, f, a, skb.data[34..], !skb.faulted)
    ensures !skb.faulted ==> o == ErrorDecision(cfg, a)
    ensures o == Translate && old(skb.CsumOk()) ==> skb.CsumOk()
  {
    ghost var before := skb.data;
    ghost var q := Quoted(a);
    var d2: u32;
    o, d2 := RewriteQuote(cfg, skb, a, head, d);
    if o != Translate {
      return;
    }
    ghost var r := skb.data[62..];
    ghost var c := skb.data[34..];
    assert skb.data[..34] == skb.data[..62][..34] == before[..34];
    assert c == new_ + r by {
      assert skb.data[34..62] == skb.data[..62][34..] == before[..62][34..] == before[34..62];
    }
    ghost var delta := Le(new_) + Le(r) - Le(IcmpPseudo(f)) - Le(a);
    assert a == head + q;
    LeConcat(head, q);
    ErrorDelta(diff, Le(IcmpPseudo(f)), Le(head), Le(new_), d, Le(q), Le(r), d2);
    var ok := Egress.PatchField(skb, 34, 2, d2, delta, false, false);
    if !ok {
      return Drop(IngressHelper);
    }
    ErrorAssembled(skb.data[34..], c, new_, r);
    return Translate;
  }

  lemma ErrorDelta(diff: int, pseudo: int, head: int, new_: int, d: int, q: int, r: int, d2: int)
    requires Cong(diff, 0 - pseudo)
    requires Cong(d, diff - head + new_)
    requires Cong(d2, d + r - q)
    ensures Cong(d2, new_ + r - pseudo - (head + q))
  {
    CongOffset(diff, 0 - pseudo, new_ - head);
    CongTrans(d, diff + (new_ - head), 0 - pseudo + (new_ - head));
    CongOffset(d, new_ - head - pseudo, r - q);
    CongTrans(d2, d + (r - q), new_ - head - pseudo + (r - q));
  }

  lemma ErrorAssembled(b: bytes, c: bytes, new_: bytes, r: bytes)
    requires |new_| == 28 && c == new_ + r && |b| == |c|
    requires b == Splice(c, 2, Le16(GetLe16(b, 2)))
    ensures b[..28] == Splice(new_, 2, Le16(GetLe16(b, 2))) && b[28..] == r
    ensures GetLe16(c, 2) == GetLe16(new_, 2)
  {
  }

  // ---- the program

  method Icmp(cfg: Config, skb: Skb, f: bytes) returns (o: Outcome)
    requires skb.Valid() && skb.l3.Ip4? && |f| >= 62 && L4Len6(f) >= 0 && Upper6(f) == ICMPV6
    requires !(IsFrag6(f) && Off6(f) != 0)
    requires |skb.data| >= 34 && skb.data[..34] == Head4(cfg, f, 0)
    modifies skb
    ensures skb.Valid() && skb.mode == old(skb.mode) && (old(skb.faulted) ==> skb.faulted)
    ensures o != Pass && (o.Drop? ==> IsIngressDrop(o.key))
    ensures o == Translate ==>
              var a := old(skb.data)[34..];
              && L4Decision6(cfg, f, a) == Translate && 34 <= |skb.data|
              && skb.data[..34] == Head4(cfg, f, OuterShrink(f, a))
              && L4Rel6(cfg, skb.mode, f, a, skb.data[34..], !skb.faulted)
    ensures !skb.faulted ==> o == L4Decision6(cfg, f, old(skb.data)[34..])
    ensures o == Translate && old(skb.CsumOk()) ==> skb.CsumOk()
  {
    ghost var a := skb.data[34..];
    var ok, hdr := skb.LoadBytes(34, 8);
    if !ok {
      return Drop(IngressTruncated);
    }
    assert hdr[0] == a[0];
    var diff := RemovePseudo(IcmpPseudo(f));
    if IsEcho6(hdr[0]) {
      ok := Echo(skb, f, hdr, diff);
      return if ok then Translate else Drop(IngressHelper);
    }
    o := Error(cfg, skb, f, hdr, diff);
  }

  method L4(cfg: Config, skb: Skb, f: bytes) returns (o: Outcome)
    requires skb.Valid() && skb.l3.Ip4? && |f| >= 62 && L4Len6(f) >= 0
    requires |skb.data| >= 34 && skb.data[..34] == Head4(cfg, f, 0)
    modifies skb
    ensures skb.Valid() && skb.mode == old(skb.mode) && (old(skb.faulted) ==> skb.faulted)
    ensures o != Pass && (o.Drop? ==> IsIngressDrop(o.key))
    ensures o == Translate ==>
              var a := old(skb.data)[34..];
              && L4Decision6(cfg, f, a) == Translate && 34 <= |skb.data|
              && skb.data[..34] == Head4(cfg, f, OuterShrink(f, a))
              && L4Rel6(cfg, skb.mode, f, a, skb.data[34..], !skb.faulted)
    ensures !skb.faulted ==> o == L4Decision6(cfg, f, old(skb.data)[34..])
    ensures o == Translate && old(skb.CsumOk()) ==> skb.CsumOk()
  {
    if IsFrag6(f) && Off6(f) != 0 {
      return Translate;
    }
    var diff := CsumDiff(Src6(f) + Dst6(f), Source4(cfg, f) + cfg.pod4, 0);
    if Upper6(f) == TCP {
      var ok := Egress.PatchField(skb, 34, 16, diff, AddrDelta6(cfg, f), false, false);
      return if ok then Translate else Drop(IngressHelper);
    } else if Upper6(f) == UDP {
      o := Udp(cfg, skb, f, diff);
    } else if Upper6(f) == ICMPV6 {
      o := Icmp(cfg, skb, f);
    } else {
      return Translate;
    }
  }

  /** `clat_ingress`. */
  method ClatIngress(cfg: Config, skb: Skb, cnt: CounterMap) returns (act: Action, ghost fate: Outcome)
    requires skb.Valid() && !skb.faulted
    modifies skb, cnt
    ensures skb.Valid()
    ensures act == ActionOf(fate) && cnt.cells == After(old(cnt.cells), IngressTranslated, fate)
    ensures old(skb.linear) < 14 || EtherType(old(skb.data)) != ETHER_IP6 ==> fate == Pass
    ensures fate == Pass ==> skb.data == old(skb.data)
    ensures fate.Drop? ==> IsIngressDrop(fate.key)
    ensures fate != Pass ==> Selected(cfg, old(skb.data))
    ensures fate == Translate ==>
              old(skb.l3).Ip6? && Rel6(cfg, old(skb.mode), old(skb.data), skb.data, !skb.faulted)
    ensures old(skb.linear) >= 14 && EtherType(old(skb.data)) == ETHER_IP6 && !skb.faulted && old(skb.l3).Ip6?
            ==> fate == Decision6(cfg, old(skb.data))
    ensures fate == Translate && old(skb.CsumOk()) ==> skb.CsumOk()
  {
    if skb.linear < ETH_HLEN {
      return ActOk, Pass;
    }
    if EtherType(skb.data) != ETHER_IP6 {
      return ActOk, Pass;
    }
    var f := skb.data;
    var selected := Select(cfg, skb);
    if !selected {
      return ActOk, Pass;
    }
    if L4Len6(f) < 0 {
      act := cnt.DropPacket(IngressTruncated);
      return act, Drop(IngressTruncated);
    }
    if IsExtHdr(Upper6(f)) {
      act := cnt.DropPacket(IngressExtHdr);
      return act, Drop(IngressExtHdr);
    }
    if Upper6(f) == ICMPV6 && IsFrag6(f) {
      act := cnt.DropPacket(IngressFragIcmp);
      return act, Drop(IngressFragIcmp);
    }
    var ok := Reshape(cfg, skb, f);
    if !ok {
      act := cnt.DropPacket(IngressHelper);
      return act, Drop(IngressHelper);
    }
    var o := L4(cfg, skb, f);
    if o != Translate {
      act := cnt.DropPacket(o.key);
      return act, o;
    }
    cnt.Count(IngressTranslated);
    return ActOk, Translate;
  }
}
