/** What the far end sees of a packet that left the pod. A packet may leave with a partial checksum:
    the field holds the pseudo-header sum, and the stack or the device completes it on the way. */
module Wire {
  import opened Bytes
  import opened Checksum
  import opened Headers
  import opened Kernel
  import opened EgressSpec
  import opened EgressTheorems
  import UdpChecksum

  // ---- completion

  /** A message whose checksum field is completed: the complement of everything in it, the sum in
      the field included, and never zero. */
  ghost function Completed(m: bytes, off: nat): (r: bytes)
    requires off + 2 <= |m|
    ensures |r| == |m|
  {
    Splice(m, off, Le16(UdpChecksum.MangledCsum(Le(m))))
  }

  lemma CompletedReads(m: bytes, off: nat)
    requires off + 2 <= |m| && off % 2 == 0
    ensures GetLe16(Completed(m, off), off) != 0 && Cong(GetLe16(Completed(m, off), off), 0 - Le(m))
    ensures Le(Completed(m, off)) == Le(m) - GetLe16(m, off) + GetLe16(Completed(m, off), off)
  {
    UdpChecksum.MangledCsumSpec(Le(m));
    assert GetLe16(Completed(m, off), off) == UdpChecksum.MangledCsum(Le(m));
    LeField(m, off, UdpChecksum.MangledCsum(Le(m)));
  }

  /** Completing commutes with translating: a partial field moved up by the difference of the
      pseudo-headers completes to a checksum moved down by it. */
  lemma CompletionCommutes(a: bytes, b: bytes, off: nat, delta: int, mangled: bool)
    requires FieldPatched(SumPartial, a, b, off, delta, mangled) && off % 2 == 0
    ensures FieldPatched(SumNone, Completed(a, off), Completed(b, off), off, delta, true)
  {
    var x, y := GetLe16(a, off), GetLe16(b, off);
    CompletedReads(a, off);
    CompletedReads(b, off);
    LeField(a, off, y);
    CompletedMoves(GetLe16(Completed(a, off), off), GetLe16(Completed(b, off), off), Le(a), Le(b), x, y, delta);
    assert Completed(b, off) == Splice(Completed(a, off), off, Le16(GetLe16(Completed(b, off), off)));
  }

  lemma CompletedMoves(ca: int, cb: int, la: int, lb: int, x: int, y: int, delta: int)
    requires Cong(ca, 0 - la) && Cong(cb, 0 - lb) && lb == la - x + y && Cong(y, x + delta)
    ensures Cong(cb, ca - delta)
  {
    CongOffset(y, x + delta, x - la);
    CongTrans(cb, 0 - lb, 0 - la - delta);
    CongOffset(ca, 0 - la, 0 - delta);
    CongSym(ca - delta, 0 - la - delta);
    CongTrans(cb, 0 - la - delta, ca - delta);
  }

  /** A message whose field held the sum of its pseudo-header verifies once completed. */
  lemma CompletedVerifies(p: bytes, m: bytes, off: nat)
    requires off + 2 <= |m| && off % 2 == 0 && Cong(GetLe16(m, off), Le(p)) && Le(p) > 0
    ensures Verifies(p, Completed(m, off))
  {
    CompletedReads(m, off);
    var x: int, c: int := GetLe16(m, off), GetLe16(Completed(m, off), off);
    CongOffset(c, 0 - Le(m), Le(m) - x + Le(p));
    CongOffset(x, Le(p), Le(p));
    CongTrans(Le(p) + Le(Completed(m, off)), Le(p) - x, 0);
    VerifiesSpec(p, Completed(m, off));
  }

  // ---- packets

  /** Length of the headers of the translation. */
  function HdrLen(f: bytes): nat
    requires Has4(f)
  {
    if IsFrag4(f) then 48 else 40
  }

  /** The checksum of this packet is completed after egress. */
  predicate Completes(mode: Mode, f: bytes) {
    && Has4(f) && 14 + Ihl(f) <= |f|
    && mode.SumPartial? && Off4(f) == 0 && (Proto4(f) == TCP || Proto4(f) == UDP)
    && FieldOffset(Proto4(f)) + 2 <= |Rest4(f)|
  }

  /** A partial field that is zero stands for a pseudo-header sum that is. */
  ghost predicate HonestPartial(mode: Mode, f: bytes)
    requires Has4(f) && 14 + Ihl(f) <= |f| && Ihl(f) <= TotLen(f)
  {
    Completes(mode, f) && Proto4(f) == UDP && GetLe16(Rest4(f), 6) == 0 ==> PseudoIsZero(f)
  }

  /** The transport part the pod meant to send. */
  ghost function Meant(mode: Mode, f: bytes): (x: bytes)
    requires Has4(f) && 14 + Ihl(f) <= |f| && Ihl(f) <= TotLen(f)
    ensures |x| == |Rest4(f)|
  {
    if Completes(mode, f) then Completed(Rest4(f), FieldOffset(Proto4(f))) else AsSent(f)
  }

  /** The frame the far end sees of the translation `g`. */
  ghost function Wired(mode: Mode, f: bytes, g: bytes): bytes
    requires Has4(f) && |g| >= 14 + HdrLen(f)
  {
    if Completes(mode, f) && FieldOffset(Proto4(f)) + 2 <= |Out6(f, g)| then
      g[..14 + HdrLen(f)] + Completed(Out6(f, g), FieldOffset(Proto4(f)))
    else g
  }

  ghost predicate WiredFrom(cfg: Config, mode: Mode, f: bytes, g: bytes, w: bytes) {
    Rel(cfg, mode, f, g) && |g| >= 14 + HdrLen(f) && w == Wired(mode, f, g)
  }

  /** `w` is what the far end sees of `f`. */
  ghost predicate OnWire(cfg: Config, mode: Mode, f: bytes, w: bytes) {
    && Has4(f) && 20 <= Ihl(f) <= TotLen(f) && 14 + Ihl(f) <= |f| && Src4(f) == cfg.pod4
    && |w| >= 14 + HdrLen(f)
    && exists g :: WiredFrom(cfg, mode, f, g, w)
  }

  /** Only a partial TCP or UDP checksum makes a difference. */
  lemma OnWireIsRel(cfg: Config, mode: Mode, f: bytes, w: bytes)
    requires !Completes(mode, f)
    ensures OnWire(cfg, mode, f, w) <==> Rel(cfg, mode, f, w)
  {
    if Rel(cfg, mode, f, w) {
      EgressHeader(cfg, mode, f, w);
      assert WiredFrom(cfg, mode, f, w, w);
    }
  }

  lemma RelGoesOut(cfg: Config, mode: Mode, f: bytes, g: bytes)
    requires Rel(cfg, mode, f, g)
    ensures |g| >= 14 + HdrLen(f) && OnWire(cfg, mode, f, Wired(mode, f, g))
  {
    EgressHeader(cfg, mode, f, g);
    assert WiredFrom(cfg, mode, f, g, Wired(mode, f, g));
  }

  /** The headers are those of the translation, and so is every transport byte but the field. */
  lemma WiredSides(mode: Mode, f: bytes, g: bytes)
    requires Has4(f) && |g| >= 14 + HdrLen(f)
    ensures var w := Wired(mode, f, g);
            && |w| == |g| && w[..14 + HdrLen(f)] == g[..14 + HdrLen(f)]
            && Out6(f, w) == (if w == g then Out6(f, g) else Completed(Out6(f, g), FieldOffset(Proto4(f))))
  {
    var w, k := Wired(mode, f, g), 14 + HdrLen(f);
    if w != g {
      assert w[..k] == g[..k] && w[k..] == Completed(Out6(f, g), FieldOffset(Proto4(f)));
    }
  }

  lemma SameHeaders(f: bytes, g: bytes, w: bytes, k: nat)
    requires Has4(f) && k == 14 + HdrLen(f) && |w| == |g| >= k && w[..k] == g[..k]
    ensures w[..12] == g[..12] && EtherType(w) == EtherType(g) && Version6(w) == Version6(g) && Tc6(w) == Tc6(g)
    ensures Hop6(w) == Hop6(g) && Nh6(w) == Nh6(g) && PayloadLen(w) == PayloadLen(g)
    ensures Src6(w) == Src6(g) && Dst6(w) == Dst6(g)
    ensures k == 62 ==> w[54] == g[54] && FragWord6(w) == FragWord6(g) && Id6(w) == Id6(g)
  {
    SameSlice(w, g, k, 0, 12);
    SameSlice(w, g, k, 12, 14);
    SameSlice(w, g, k, 22, 38);
    SameSlice(w, g, k, 38, 54);
    assert forall i :: 0 <= i < k ==> w[i] == w[..k][i] == g[..k][i] == g[i];
  }

  lemma SameSlice(w: bytes, g: bytes, k: nat, i: nat, j: nat)
    requires i <= j <= k <= |w| == |g| && w[..k] == g[..k]
    ensures w[i..j] == g[i..j]
  {
    SliceOfHead(w, k, i, j);
    SliceOfHead(g, k, i, j);
  }

  /** Every header field the far end reads, as for the translation itself. */
  lemma WireHeader(cfg: Config, mode: Mode, f: bytes, w: bytes)
    requires OnWire(cfg, mode, f, w)
    ensures Has6(w) && w[..12] == f[..12] && EtherType(w) == ETHER_IP6
    ensures Version6(w) == 6 && Tc6(w) == Tos4(f) && Hop6(w) == Ttl4(f)
    ensures Src6(w) == cfg.pod6 && Dst6(w) == Mapped(cfg, Dst4(f))
    ensures PayloadLen(w) == L4Len(f) + if IsFrag4(f) then 8 else 0
    ensures IsFrag4(f) ==> |w| >= 62 && IsFrag6(w) && w[54] == NextHeader(Proto4(f)) && Off6(w) == Off4(f)
                           && More6(w) == More4(f) && Id6(w) == Id4(f)
    ensures !IsFrag4(f) ==> Nh6(w) == NextHeader(Proto4(f))
    ensures |w| == |f| - Ihl(f) + if IsFrag4(f) then 48 else 40
    ensures |Out6(f, w)| == |Rest4(f)|
  {
    var g :| WiredFrom(cfg, mode, f, g, w);
    EgressHeader(cfg, mode, f, g);
    WiredSides(mode, f, g);
    SameHeaders(f, g, w, 14 + HdrLen(f));
  }

  /** On the wire TCP and UDP differ from what the pod meant by the patch of a complete checksum,
      partial or not when they left. */
  lemma WireIsPatched(cfg: Config, mode: Mode, f: bytes, w: bytes)
    requires OnWire(cfg, mode, f, w) && Off4(f) == 0 && (Proto4(f) == TCP || Proto4(f) == UDP)
    requires HonestPartial(mode, f)
    ensures |Out6(f, w)| == |Rest4(f)|
    ensures FieldPatched(SumNone, Meant(mode, f), Out6(f, w), FieldOffset(Proto4(f)), AddrDelta(cfg, f),
                         Proto4(f) == UDP || mode.SumPartial?)
  {
    WireHeader(cfg, mode, f, w);
    if Completes(mode, f) {
      var g :| WiredFrom(cfg, mode, f, g, w);
      CompletedIsPatched(cfg, mode, f, g);
    } else {
      OnWireIsRel(cfg, mode, f, w);
      OutIsPatched(cfg, mode, f, w);
    }
  }

  lemma CompletedIsPatched(cfg: Config, mode: Mode, f: bytes, g: bytes)
    requires Rel(cfg, mode, f, g) && |g| >= 14 + HdrLen(f) && Completes(mode, f) && HonestPartial(mode, f)
    ensures |Wired(mode, f, g)| == |g|
    ensures FieldPatched(SumNone, Meant(mode, f), Out6(f, Wired(mode, f, g)), FieldOffset(Proto4(f)),
                         AddrDelta(cfg, f), true)
  {
    WiredSides(mode, f, g);
    LeavesPartial(cfg, mode, f, g);
    CompletionCommutes(Rest4(f), Out6(f, g), FieldOffset(Proto4(f)), AddrDelta(cfg, f), Proto4(f) == UDP);
  }

  lemma LeavesPartial(cfg: Config, mode: Mode, f: bytes, g: bytes)
    requires Rel(cfg, mode, f, g) && |g| >= 14 + HdrLen(f) && Completes(mode, f) && HonestPartial(mode, f)
    ensures FieldPatched(SumPartial, Rest4(f), Out6(f, g), FieldOffset(Proto4(f)), AddrDelta(cfg, f), Proto4(f) == UDP)
  {
  }

  /** A packet that leaves with a right partial checksum arrives with a right one: over IPv6, as it
      would have over IPv4. */
  lemma PartialArrivesRight(cfg: Config, f: bytes, w: bytes)
    requires OnWire(cfg, SumPartial, f, w) && Completes(SumPartial, f) && !IsFrag4(f) && |Rest4(f)| == L4Len(f)
    requires Cong(GetLe16(Rest4(f), FieldOffset(Proto4(f))), Le(Pseudo4(Src4(f), Dst4(f), Proto4(f), L4Len(f))))
    ensures |w| == 54 + L4Len(f)
    ensures Verifies(Pseudo4(Src4(f), Dst4(f), Proto4(f), L4Len(f)), Meant(SumPartial, f))
    ensures Verifies(Pseudo6(Src6(w), Dst6(w), Nh6(w), L4Len(f)), w[54..])
  {
    var g :| WiredFrom(cfg, SumPartial, f, g, w);
    WireHeader(cfg, SumPartial, f, w);
    EgressHeader(cfg, SumPartial, f, g);
    WiredSides(SumPartial, f, g);
    PseudoPair(cfg.pod4, Dst4(f), cfg.pod6, Mapped(cfg, Dst4(f)), Proto4(f), L4Len(f));
    CompletedVerifies(Pseudo4(Src4(f), Dst4(f), Proto4(f), L4Len(f)), Rest4(f), FieldOffset(Proto4(f)));
    PartialField(cfg, f, g);
    CompletedVerifies(Pseudo6(cfg.pod6, Mapped(cfg, Dst4(f)), Proto4(f), L4Len(f)), Out6(f, g), FieldOffset(Proto4(f)));
  }

  lemma PartialField(cfg: Config, f: bytes, g: bytes)
    requires Rel(cfg, SumPartial, f, g) && Completes(SumPartial, f) && |g| >= 14 + HdrLen(f)
    requires Cong(GetLe16(Rest4(f), FieldOffset(Proto4(f))), Le(Pseudo4(Src4(f), Dst4(f), Proto4(f), L4Len(f))))
    ensures |Out6(f, g)| == |Rest4(f)|
    ensures Cong(GetLe16(Out6(f, g), FieldOffset(Proto4(f))),
                 Le(Pseudo6(cfg.pod6, Mapped(cfg, Dst4(f)), Proto4(f), L4Len(f))))
  {
    EgressHeader(cfg, SumPartial, f, g);
    if Checksummed(f) {
      EgressPartial(cfg, f, g);
    } else {
      CongSym(0, Le(Pseudo4(Src4(f), Dst4(f), UDP, L4Len(f))));
      EgressUdpZeroPseudoPartial(cfg, f, g);
    }
  }

  /** No UDP header is seen with a zero checksum. */
  lemma WireUdpNeverZero(cfg: Config, mode: Mode, f: bytes, w: bytes)
    requires OnWire(cfg, mode, f, w) && Proto4(f) == UDP && Off4(f) == 0
    ensures |Out6(f, w)| >= 8 && GetLe16(Out6(f, w), 6) != 0
  {
    var g :| WiredFrom(cfg, mode, f, g, w);
    EgressUdpNeverZero(cfg, mode, f, g);
    WiredSides(mode, f, g);
    CompletedReads(Out6(f, g), 6);
  }

  /** Every other transport byte is seen as the pod sent it. */
  lemma WireCarriesBytes(cfg: Config, mode: Mode, f: bytes, w: bytes, i: nat)
    requires OnWire(cfg, mode, f, w) && i < |Rest4(f)|
    requires Off4(f) != 0 || !Mutable(Proto4(f), i)
    ensures |Out6(f, w)| == |Rest4(f)| && Out6(f, w)[i] == Rest4(f)[i]
  {
    var g :| WiredFrom(cfg, mode, f, g, w);
    EgressCarriesBytes(cfg, mode, f, g, i);
    WiredSides(mode, f, g);
  }
}
