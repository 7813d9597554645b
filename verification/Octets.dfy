/** Both directions in octets: what each accepted frame turns into, byte by byte, and for every
    verdict the frames that meet it. The positions and values are those of RFC 791, RFC 792,
    RFC 8200 and RFC 4443. */
module Octets {
  import opened Bytes
  import opened Headers
  import opened Kernel
  import opened Counters
  import opened EgressSpec
  import opened IngressSpec
  import opened EgressTheorems
  import opened IngressTheorems
  import Options

  /** A 16-bit field, most significant octet first. */
  function Word(s: bytes, i: nat): nat
    requires i + 2 <= |s|
  {
    256 * (s[i] as int) + s[i + 1] as int
  }

  lemma WordOf(s: bytes, i: nat, v: nat)
    requires i + 2 <= |s| && s[i..i + 2] == Be16(v)
    ensures v < 0x1_0000 ==> Word(s, i) == v
    ensures Word(s, i) == v % 0x1_0000
  {
    Be16Truncates(v);
    assert s[i] == s[i..i + 2][0] && s[i + 1] == s[i..i + 2][1];
  }

  // ---- clat_egress, the translation

  /** Octets of the IPv4 header length. */
  function HeaderLen(f: bytes): nat
    requires |f| >= 34
  {
    4 * (f[14] % 16)
  }

  /** More fragments, or an offset. */
  predicate Fragment(f: bytes)
    requires |f| >= 34
  {
    Word(f, 20) % 0x4000 != 0
  }

  /** The IPv6 header of every translation: version and traffic class, a zero flow label, the
      payload length, next header and hop limit, the pod's address and the mapped destination.
      A fragment gets a Fragment header with its offset, its flag and its identification, and
      zeros where RFC 8200 reserves bits. */
  lemma EgressOctets(cfg: Config, mode: Mode, f: bytes, g: bytes)
    requires Rel(cfg, mode, f, g)
    ensures |f| >= 34 && |g| >= 54 && g[..12] == f[..12] && g[12..14] == [0x86, 0xdd]
    ensures g[14] == 0x60 + f[15] / 16 && g[15] == (f[15] % 16) * 16 && g[16] == 0 && g[17] == 0
    ensures g[21] == f[22] && g[22..38] == cfg.pod6 && g[38..50] == cfg.prefix[..12] && g[50..54] == f[30..34]
    ensures var nh := if f[23] == 1 then 58 else f[23];
            var n := Word(f, 16) - HeaderLen(f);
            if !Fragment(f) then g[20] == nh && Word(g, 18) == n
            else
              && |g| >= 62 && g[20] == 44 && Word(g, 18) == n + 8
              && g[54] == nh && g[55] == 0 && Word(g, 56) == 8 * (Word(f, 20) % 0x2000) + (Word(f, 20) / 0x2000) % 2
              && g[58] == 0 && g[59] == 0 && g[60] == f[18] && g[61] == f[19]
  {
    var h := Head(cfg, f);
    HeadOctets(cfg, f);
    forall i | 0 <= i < |h|
      ensures g[i] == h[i]
    {
      assert g[i] == g[..|h|][i];
    }
    assert g[..12] == h[..12] && g[12..14] == h[12..14];
    assert g[22..38] == h[22..38] && g[38..50] == h[38..50] && g[50..54] == h[50..54];
  }

  lemma HeadOctets(cfg: Config, f: bytes)
    requires Has4(f) && 20 <= Ihl(f) <= TotLen(f)
    ensures var h := Head(cfg, f);
            var nh := if f[23] == 1 then 58 else f[23];
            var n := Word(f, 16) - HeaderLen(f);
            && h[..12] == f[..12] && h[12..14] == [0x86, 0xdd]
            && h[14] == 0x60 + f[15] / 16 && h[15] == (f[15] % 16) * 16 && h[16] == 0 && h[17] == 0
            && h[21] == f[22] && h[22..38] == cfg.pod6 && h[38..50] == cfg.prefix[..12] && h[50..54] == f[30..34]
            && |h| == (if Fragment(f) then 62 else 54)
            && h[20] == (if Fragment(f) then 44 else nh)
            && Word(h, 18) == (if Fragment(f) then n + 8 else n)
            && (Fragment(f) ==>
                  && h[54] == nh && h[55] == 0
                  && Word(h, 56) == 8 * (Word(f, 20) % 0x2000) + (Word(f, 20) / 0x2000) % 2
                  && h[58] == 0 && h[59] == 0 && h[60] == f[18] && h[61] == f[19])
  {
    FragmentMeans(f);
    var h := Head(cfg, f);
    var frag := IsFrag4(f);
    var len := if frag then L4Len(f) + 8 else L4Len(f);
    var nh := if frag then FRAGMENT else NextHeader(Proto4(f));
    var six := Ip6Hdr(Tos4(f), len, nh, Ttl4(f), cfg.pod6, Mapped(cfg, Dst4(f)));
    Ip6Octets(Tos4(f), len, nh, Ttl4(f), cfg.pod6, Mapped(cfg, Dst4(f)));
    assert h[14..54] == six;
    SliceOfSlice(h, 14, 54, 4, 6);
    WordOf(h, 18, len);
    SliceOfSlice(h, 14, 54, 8, 24);
    SliceOfSlice(h, 14, 54, 24, 36);
    SliceOfSlice(h, 14, 54, 36, 40);
    if frag {
      assert h[54..62] == FragHdr(NextHeader(Proto4(f)), Off4(f), More4(f), Id4(f));
      FragOctets(NextHeader(Proto4(f)), Off4(f), More4(f), f);
      SliceOfSlice(h, 54, 62, 2, 4);
      WordOf(h, 56, Off4(f) * 8 + if More4(f) then 1 else 0);
    }
  }

  lemma SliceOfSlice(s: bytes, lo: nat, hi: nat, i: nat, j: nat)
    requires lo <= hi <= |s| && i <= j <= hi - lo
    ensures s[lo..hi][i..j] == s[lo + i..lo + j]
  {
    var t := s[lo..hi];
    forall m | i <= m < j
      ensures t[m] == s[lo + m]
    {
    }
  }

  lemma FragmentMeans(f: bytes)
    requires Has4(f)
    ensures IsFrag4(f) == Fragment(f) && Off4(f) == Word(f, 20) % 0x2000
    ensures More4(f) <==> (Word(f, 20) / 0x2000) % 2 == 1
  {
    var w := Word(f, 20);
    assert w == 0x2000 * (w / 0x2000) + w % 0x2000;
    assert w / 0x2000 == 2 * (w / 0x4000) + (w / 0x2000) % 2;
  }

  lemma Ip6Octets(tos: byte, len: nat, nh: byte, hop: byte, src: Addr6, dst: Addr6)
    ensures var h := Ip6Hdr(tos, len, nh, hop, src, dst);
            && h[0] == 0x60 + tos / 16 && h[1] == (tos % 16) * 16 && h[2] == 0 && h[3] == 0
            && h[4..6] == Be16(len) && h[6] == nh && h[7] == hop
            && h[8..24] == src && h[24..36] == dst[..12] && h[36..40] == dst[12..]
  {
  }

  lemma FragOctets(nh: byte, off: nat, more: bool, f: bytes)
    requires Has4(f)
    ensures var h := FragHdr(nh, off, more, Id4(f));
            && h[0] == nh && h[1] == 0 && h[2..4] == Be16(off * 8 + if more then 1 else 0)
            && h[4] == 0 && h[5] == 0 && h[6] == f[18] && h[7] == f[19]
  {
  }

  /** Echo request becomes echo request and reply becomes reply; nothing else of ICMP gets out. */
  lemma EgressEchoOctets(cfg: Config, mode: Mode, f: bytes, g: bytes)
    requires Rel(cfg, mode, f, g) && f[23] == 1
    ensures 14 + HeaderLen(f) < |f| && |g| > 54
    ensures var t := f[14 + HeaderLen(f)];
            (t == 8 && g[54] == 128) || (t == 0 && g[54] == 129)
  {
    assert Rest4(f)[0] == f[14 + HeaderLen(f)];
    FragmentMeans(f);
    assert !IsFrag4(f);
    var b := g[54..];
    var a := Rest4(f);
    assert FieldPatched(mode, a[0 := EchoType6(a[0])], b, 2, EchoDelta(cfg, f, a[0]), false);
    assert b[0] == g[54];
  }

  // ---- clat_egress, the verdict

  /** A complete IPv4 header. */
  predicate Header(f: bytes) {
    |f| >= 34 && f[14] / 16 == 4 && f[14] % 16 >= 5
  }

  predicate FromPod(cfg: Config, f: bytes) {
    Header(f) && f[26..30] == cfg.pod4
  }

  /** To 224.0.0.0/4 or to the limited broadcast address. */
  predicate ToMany(f: bytes)
    requires |f| >= 34
  {
    224 <= f[30] < 240 || f[30..34] == [255, 255, 255, 255]
  }

  predicate FromPodToHost(cfg: Config, f: bytes) {
    FromPod(cfg, f) && !ToMany(f)
  }

  /** The verdict depends on the options or what follows them. */
  predicate Examined(cfg: Config, f: bytes) {
    FromPodToHost(cfg, f) && Word(f, 16) >= HeaderLen(f) && !(Fragment(f) && f[23] == 1)
  }

  predicate RouteOption(f: bytes)
    requires Header(f)
  {
    HeaderLen(f) > 20 && Options.Walk(f, 34, HeaderLen(f) - 20, 0)
  }

  /** The verdict depends on the transport header. */
  predicate Carried(cfg: Config, f: bytes) {
    Examined(cfg, f) && !RouteOption(f) && 14 + HeaderLen(f) <= |f|
  }

  /** Everything behind the IPv4 header. */
  function Behind(f: bytes): bytes
    requires |f| >= 34 && 14 + HeaderLen(f) <= |f|
  {
    f[14 + HeaderLen(f)..]
  }

  /** The transport header is in this packet. */
  predicate First(f: bytes)
    requires |f| >= 34
  {
    Word(f, 20) % 0x2000 == 0
  }

  /** A datagram without a checksum whose pseudo-header does not sum to zero. */
  ghost predicate Unsummed(f: bytes, a: bytes)
    requires |f| >= 34 && Word(f, 16) >= HeaderLen(f)
  {
    First(f) && f[23] == 17 && |a| >= 8 && a[6] == 0 && a[7] == 0 && !PseudoIsZero(f)
  }

  /** The transport part can be translated. */
  ghost predicate Translatable(f: bytes, a: bytes)
    requires |f| >= 34 && Word(f, 16) >= HeaderLen(f)
  {
    First(f) ==>
      && (f[23] == 6 ==> |a| >= 18)
      && (f[23] == 17 ==> |a| >= 8)
      && (f[23] == 1 ==> |a| >= 4 && a[0] in {0, 8})
      && (Unsummed(f, a) ==> !Fragment(f) && Word(f, 16) - HeaderLen(f) <= 10240
                             && Word(f, 16) - HeaderLen(f) <= |a|)
  }

  /** The frames each counter stands for: what comes before the transport header. */
  lemma EgressHeaderVerdicts(cfg: Config, f: bytes)
    ensures Decision(cfg, f) == Drop(EgressBadSrc) <==> Header(f) && f[26..30] != cfg.pod4
    ensures Decision(cfg, f) == Drop(EgressMcast) <==> FromPod(cfg, f) && ToMany(f)
    ensures Decision(cfg, f) == Drop(EgressSrcRoute) <==> Examined(cfg, f) && RouteOption(f)
    ensures !Header(f) ==> Decision(cfg, f) == Drop(EgressTruncated)
    ensures FromPodToHost(cfg, f) && Word(f, 16) < HeaderLen(f) ==> Decision(cfg, f) == Drop(EgressTruncated)
    ensures FromPodToHost(cfg, f) && Word(f, 16) >= HeaderLen(f) && Fragment(f) && f[23] == 1
            ==> Decision(cfg, f) == Drop(EgressFragNoCsum)
    ensures Examined(cfg, f) && !RouteOption(f) && 14 + HeaderLen(f) > |f| ==> Decision(cfg, f) == Drop(EgressHelper)
    ensures Carried(cfg, f) ==> Decision(cfg, f) == L4Decision(f, Behind(f))
  {
    if |f| >= 34 {
      FragmentMeans(f);
      assert Unmappable(Dst4(f)) <==> ToMany(f);
      if Carried(cfg, f) {
        TransportIsNoHeaderVerdict(f);
      }
    }
  }

  lemma TransportIsNoHeaderVerdict(f: bytes)
    requires |f| >= 34 && Word(f, 16) >= HeaderLen(f) && 14 + HeaderLen(f) <= |f|
    ensures L4Decision(f, Behind(f)) !in {Drop(EgressBadSrc), Drop(EgressMcast), Drop(EgressSrcRoute)}
  {
  }

  /** The rest of the counters, and the frames that get through. */
  lemma EgressTransportVerdicts(f: bytes, a: bytes)
    requires |f| >= 34 && Word(f, 16) >= HeaderLen(f) && !(Fragment(f) && f[23] == 1)
    ensures L4Decision(f, a) == Translate <==> Translatable(f, a)
    ensures L4Decision(f, a) == Drop(EgressTruncated) <==>
            First(f) && ((f[23] == 17 && |a| < 8) || (f[23] == 1 && |a| < 2))
    ensures L4Decision(f, a) == Drop(EgressFragNoCsum) <==> Unsummed(f, a) && Fragment(f)
    ensures L4Decision(f, a) == Drop(EgressTooBig) <==>
            Unsummed(f, a) && !Fragment(f)
            && (Word(f, 16) - HeaderLen(f) > 10240 || Word(f, 16) - HeaderLen(f) > |a|)
    ensures L4Decision(f, a) == Drop(EgressIcmpUnsupported) <==>
            First(f) && f[23] == 1 && |a| >= 2 && a[0] !in {0, 8}
    ensures L4Decision(f, a) == Drop(EgressHelper) <==>
            First(f) && ((f[23] == 6 && |a| < 18) || (f[23] == 1 && 2 <= |a| < 4 && a[0] in {0, 8}))
  {
    FragmentMeans(f);
  }

  /** Every verdict on every frame: which counter, and for exactly which frames. */
  lemma EgressVerdicts(cfg: Config, f: bytes)
    ensures Decision(cfg, f) != Pass
    ensures Decision(cfg, f) == Translate <==> Carried(cfg, f) && Translatable(f, Behind(f))
    ensures Decision(cfg, f) == Drop(EgressTruncated) <==>
            || !Header(f)
            || (FromPodToHost(cfg, f) && Word(f, 16) < HeaderLen(f))
            || (Carried(cfg, f) && First(f)
                && ((f[23] == 17 && |Behind(f)| < 8) || (f[23] == 1 && |Behind(f)| < 2)))
    ensures Decision(cfg, f) == Drop(EgressBadSrc) <==> Header(f) && f[26..30] != cfg.pod4
    ensures Decision(cfg, f) == Drop(EgressMcast) <==> FromPod(cfg, f) && ToMany(f)
    ensures Decision(cfg, f) == Drop(EgressSrcRoute) <==> Examined(cfg, f) && RouteOption(f)
    ensures Decision(cfg, f) == Drop(EgressFragNoCsum) <==>
            || (FromPodToHost(cfg, f) && Word(f, 16) >= HeaderLen(f) && Fragment(f) && f[23] == 1)
            || (Carried(cfg, f) && Fragment(f) && Unsummed(f, Behind(f)))
    ensures Decision(cfg, f) == Drop(EgressIcmpUnsupported) <==>
            Carried(cfg, f) && f[23] == 1 && |Behind(f)| >= 2 && Behind(f)[0] !in {0, 8}
    ensures Decision(cfg, f) == Drop(EgressTooBig) <==>
            Carried(cfg, f) && !Fragment(f) && Unsummed(f, Behind(f))
            && (Word(f, 16) - HeaderLen(f) > 10240 || Word(f, 16) - HeaderLen(f) > |Behind(f)|)
    ensures Decision(cfg, f) == Drop(EgressHelper) <==>
            || (Examined(cfg, f) && !RouteOption(f) && 14 + HeaderLen(f) > |f|)
            || (Carried(cfg, f) && First(f)
                && ((f[23] == 6 && |Behind(f)| < 18)
                    || (f[23] == 1 && 2 <= |Behind(f)| < 4 && Behind(f)[0] in {0, 8})))
  {
    EgressHeaderVerdicts(cfg, f);
    if Carried(cfg, f) {
      FragmentMeans(f);
      EgressTransportVerdicts(f, Behind(f));
    }
  }

  /** No packet to a group or to everyone is translated; one from the pod is counted as such. A
      TCP segment without options to anyone else gets through. */
  lemma EgressDestinations(cfg: Config, mode: Mode, f: bytes, g: bytes)
    ensures Rel(cfg, mode, f, g) ==> |f| >= 34 && !(224 <= f[30] < 240) && f[30..34] != [255, 255, 255, 255]
    ensures |f| >= 34 && f[14] / 16 == 4 && f[14] % 16 >= 5 && f[26..30] == cfg.pod4
            && (224 <= f[30] < 240 || f[30..34] == [255, 255, 255, 255])
            ==> Decision(cfg, f) == Drop(EgressMcast)
    ensures |f| >= 52 && f[14] == 0x45 && f[23] == 6 && f[26..30] == cfg.pod4 && Word(f, 16) >= 20
            && !(224 <= f[30] < 240) && f[30..34] != [255, 255, 255, 255]
            ==> Decision(cfg, f) == Translate
  {
    EgressVerdicts(cfg, f);
  }

  /** An option area the walk refuses: before an end-of-list octet comes a loose or strict source
      route, an option without a length, or a length below 2. */
  predicate RefusedArea(s: bytes) {
    s != [] && s[0] != 0 &&
    if s[0] == 1 then RefusedArea(s[1..])
    else s[0] in {131, 137} || |s| == 1 || s[1] < 2 || (s[1] as int <= |s| && RefusedArea(s[s[1]..]))
  }

  lemma {:induction false} AreaOctets(s: bytes)
    ensures Options.AreaWalk(s) == RefusedArea(s)
  {
    if s != [] && s[0] != 0 {
      if s[0] == 1 {
        AreaOctets(s[1..]);
      } else if s[0] !in {131, 137} && |s| > 1 && 2 <= s[1] as int <= |s| {
        AreaOctets(s[s[1]..]);
      }
    }
  }

  /** The options of a frame that holds them all. */
  lemma OptionOctets(f: bytes)
    requires Header(f) && 14 + HeaderLen(f) <= |f|
    ensures RouteOption(f) <==> RefusedArea(f[34..14 + HeaderLen(f)])
  {
    Options.WalkIsAreaWalk(f, 34, HeaderLen(f) - 20, 0);
    AreaOctets(f[34..14 + HeaderLen(f)]);
  }

  // ---- clat_ingress, the verdict

  /** Next headers that are neither a transport protocol nor translatable: hop-by-hop options,
      routing, a second Fragment header, destination options, authentication, no next header,
      mobility, HIP and Shim6. */
  predicate Extension(nh: byte) {
    nh in {0, 43, 44, 51, 59, 60, 135, 139, 140}
  }

  /** From `a` on there is an ICMPv6 message quoting a packet from the pod into the prefix. */
  predicate QuotesPod(cfg: Config, a: bytes) {
    |a| >= 48 && a[8] / 16 == 6 && a[16..32] == cfg.pod6 && a[32..44] == cfg.prefix[..12]
  }

  /** To the pod, from the prefix or with an error about a packet into it. */
  predicate ForPod(cfg: Config, f: bytes) {
    && |f| >= 62 && f[14] / 16 == 6 && f[38..54] == cfg.pod6
    && (f[22..34] == cfg.prefix[..12] || (f[20] == 58 && 1 <= f[54] <= 4 && QuotesPod(cfg, f[54..])))
  }

  function Upper(f: bytes): byte
    requires |f| >= 62
  {
    if f[20] == 44 then f[54] else f[20]
  }

  /** Everything behind the IPv6 header and the Fragment header, if there is one. */
  function Behind6(f: bytes): bytes
    requires |f| >= 62
  {
    if f[20] == 44 then f[62..] else f[54..]
  }

  predicate Examined6(cfg: Config, f: bytes) {
    ForPod(cfg, f) && (f[20] == 44 ==> Word(f, 18) >= 8)
  }

  predicate Carried6(cfg: Config, f: bytes) {
    Examined6(cfg, f) && !Extension(Upper(f)) && !(f[20] == 44 && f[54] == 58)
  }

  predicate First6(f: bytes)
    requires |f| >= 62
  {
    f[20] == 44 ==> Word(f, 56) < 8
  }

  /** ICMPv4 can say what this ICMPv6 error says: any unreachable, packet too big or time exceeded;
      an unknown next header; and a bad field that an IPv4 header has too. */
  predicate Sayable(kind: byte, code: byte, pointer: int) {
    || 1 <= kind <= 3
    || (kind == 4 && code == 1)
    || (kind == 4 && code == 0 && pointer in {0, 4, 6, 7, 8, 24})
  }

  /** The error in `a` can be said in ICMPv4. */
  predicate SayableError(a: bytes)
    requires |a| >= 8
  {
    Sayable(a[0], a[1], 0x1_0000 * Word(a, 4) + Word(a, 6))
  }

  /** The quoted packet can be translated: our flow, complete headers, no extension header, and of
      an ICMPv6 message its type and, of an echo, its checksum. */
  predicate TranslatableQuote(cfg: Config, a: bytes) {
    && QuotesPod(cfg, a) && (a[14] == 44 ==> |a| >= 56)
    && !Extension(if a[14] == 44 then a[48] else a[14])
    && (a[14] == 58 ==> |a| >= 50 && (a[48] in {128, 129} ==> |a| >= 52))
  }

  /** An ICMPv6 message that is neither echo request nor echo reply. */
  predicate ErrorMessage(f: bytes)
    requires |f| >= 62
  {
    Upper(f) == 58 && |Behind6(f)| >= 8 && Behind6(f)[0] !in {128, 129}
  }

  lemma ForPodMeans(cfg: Config, f: bytes)
    ensures Selected(cfg, f) == ForPod(cfg, f)
  {
    if |f| >= 62 {
      assert Src6(f)[..12] == f[22..34];
      QuotesPodMeans(cfg, f[54..]);
    }
  }

  lemma QuotesPodMeans(cfg: Config, a: bytes)
    ensures QuotesOurFlow(cfg, a) == QuotesPod(cfg, a)
  {
    if |a| >= 48 {
      assert InDst(a)[..12] == a[32..44];
    }
  }

  lemma SayableMeans(kind: byte, code: byte, pointer: u32)
    ensures ErrorMap(kind, code, pointer).Map? <==> Sayable(kind, code, pointer)
  {
  }

  /** The verdict on an ICMPv6 error. */
  lemma ErrorVerdicts(cfg: Config, a: bytes)
    requires |a| >= 8
    ensures ErrorDecision(cfg, a) == Translate <==> SayableError(a) && TranslatableQuote(cfg, a)
    ensures ErrorDecision(cfg, a) == Drop(IngressIcmpUnsupported) <==> !SayableError(a)
    ensures ErrorDecision(cfg, a) == Drop(IngressIcmpInner) <==> SayableError(a) && !TranslatableQuote(cfg, a)
  {
    SayableMeans(a[0], a[1], GetBe32(a, 4));
    QuotesPodMeans(cfg, a);
  }

  /** Every verdict on every frame: which are left to the stack, which counter the others are
      dropped under, and for exactly which frames. */
  lemma IngressVerdicts(cfg: Config, f: bytes)
    ensures Decision6(cfg, f) == Pass <==> !ForPod(cfg, f)
    ensures Decision6(cfg, f) == Drop(IngressTruncated) <==>
            || (ForPod(cfg, f) && f[20] == 44 && Word(f, 18) < 8)
            || (Carried6(cfg, f) && First6(f) && Upper(f) in {17, 58} && |Behind6(f)| < 8)
    ensures Decision6(cfg, f) == Drop(IngressExtHdr) <==> Examined6(cfg, f) && Extension(Upper(f))
    ensures Decision6(cfg, f) == Drop(IngressFragIcmp) <==> Examined6(cfg, f) && f[20] == 44 && f[54] == 58
    ensures Decision6(cfg, f) == Drop(IngressHelper) <==>
            Carried6(cfg, f) && First6(f) && Upper(f) == 6 && |Behind6(f)| < 18
    ensures Decision6(cfg, f) == Drop(IngressUdpZeroCsum) <==>
            Carried6(cfg, f) && First6(f) && Upper(f) == 17 && |Behind6(f)| >= 8
            && Behind6(f)[6] == 0 && Behind6(f)[7] == 0
    ensures Decision6(cfg, f) == Drop(IngressIcmpUnsupported) <==>
            Carried6(cfg, f) && ErrorMessage(f) && !SayableError(Behind6(f))
    ensures Decision6(cfg, f) == Drop(IngressIcmpInner) <==>
            Carried6(cfg, f) && ErrorMessage(f) && SayableError(Behind6(f)) && !TranslatableQuote(cfg, Behind6(f))
    ensures Decision6(cfg, f) == Translate <==>
            Carried6(cfg, f) &&
            (First6(f) ==>
               && (Upper(f) == 6 ==> |Behind6(f)| >= 18)
               && (Upper(f) == 17 ==> |Behind6(f)| >= 8 && !(Behind6(f)[6] == 0 && Behind6(f)[7] == 0))
               && (Upper(f) == 58 ==> |Behind6(f)| >= 8)
               && (ErrorMessage(f) ==> SayableError(Behind6(f)) && TranslatableQuote(cfg, Behind6(f))))
  {
    ForPodMeans(cfg, f);
    if Carried6(cfg, f) {
      assert Rest6(f) == Behind6(f);
      if ErrorMessage(f) {
        ErrorVerdicts(cfg, Behind6(f));
      }
    }
  }

  // ---- clat_ingress, the translation

  /** The IPv4 header of every translation: no options, the traffic class as type of service, the
      length less what an error loses behind the header, identification, offset and flag of a
      fragment or else do-not-fragment, hop limit, protocol and addresses. */
  lemma IngressOctets(cfg: Config, mode: Mode, f: bytes, g: bytes, exact: bool)
    requires Rel6(cfg, mode, f, g, exact)
    ensures ForPod(cfg, f) && |g| >= 34 && g[..12] == f[..12] && g[12..14] == [8, 0]
    ensures g[14] == 0x45 && g[15] == (f[14] % 16) * 16 + f[15] / 16
    ensures ErrorMessage(f) ==> |Behind6(f)| >= 48
    ensures var behind := Word(f, 18) - (if f[20] == 44 then 8 else 0);
            var lost := if !ErrorMessage(f) then 0 else if Behind6(f)[14] == 44 then 28 else 20;
            Word(g, 16) == (20 + behind - lost) % 0x1_0000
    ensures if f[20] == 44 then
              && g[18] == f[60] && g[19] == f[61]
              && Word(g, 20) == Word(f, 56) / 8 + 0x2000 * (Word(f, 56) % 2)
            else g[18] == 0 && g[19] == 0 && Word(g, 20) == 0x4000
    ensures g[22] == f[21] && g[23] == (if Upper(f) == 58 then 1 else Upper(f))
    ensures g[26..30] == (if f[22..34] == cfg.prefix[..12] then f[34..38] else cfg.err4) && g[30..34] == cfg.pod4
  {
    IngressHeader(cfg, mode, f, g, exact);
    ForPodMeans(cfg, f);
    LostOctets(cfg, f);
    OuterOctets(cfg, f, g, OuterShrink(f, Rest6(f)));
  }

  lemma LostOctets(cfg: Config, f: bytes)
    requires |f| >= 62 && Decision6(cfg, f) == Translate
    ensures ErrorMessage(f) ==> |Behind6(f)| >= 48
    ensures OuterShrink(f, Rest6(f)) == if !ErrorMessage(f) then 0 else if Behind6(f)[14] == 44 then 28 else 20
  {
    ErrorsAreComplete(cfg, f);
  }

  lemma OuterOctets(cfg: Config, f: bytes, g: bytes, lost: nat)
    requires |f| >= 62 && Has4(g) && Version(g) == 4 && Ihl(g) == 20 && EtherType(g) == ETHER_IP4
    requires Proto4(g) == Proto(Upper6(f)) && Src4(g) == Source4(cfg, f)
    requires TotLen(g) == (L4Len6(f) + 20 - lost) % 0x1_0000
    requires Id4(g) == FragId(f) && FragWord(g) == Frag4Word(f)
    ensures g[12..14] == [8, 0] && g[14] == 0x45
    ensures Word(g, 16) == (20 + (Word(f, 18) - (if f[20] == 44 then 8 else 0)) - lost) % 0x1_0000
    ensures if f[20] == 44 then
              && g[18] == f[60] && g[19] == f[61]
              && Word(g, 20) == Word(f, 56) / 8 + 0x2000 * (Word(f, 56) % 2)
            else g[18] == 0 && g[19] == 0 && Word(g, 20) == 0x4000
    ensures g[23] == (if Upper(f) == 58 then 1 else Upper(f))
    ensures g[26..30] == if f[22..34] == cfg.prefix[..12] then f[34..38] else cfg.err4
  {
    assert Src6(f)[..12] == f[22..34] && Src6(f)[12..] == f[34..38];
    Nibbles(g[14]);
    Identification(f, 58);
    assert f[20] != 44 ==> Word(g, 18) == 0;
    if f[20] == 44 {
      SameWord(g, 18, f, 60);
    }
  }

  lemma Identification(s: bytes, i: nat)
    requires i + 4 <= |s|
    ensures GetBe32(s, i) % 0x1_0000 == Word(s, i + 2)
  {
  }

  lemma SameWord(s: bytes, i: nat, t: bytes, j: nat)
    requires i + 2 <= |s| && j + 2 <= |t| && Word(s, i) == Word(t, j)
    ensures s[i] == t[j] && s[i + 1] == t[j + 1]
  {
  }

  lemma Nibbles(b: byte)
    requires b / 16 == 4 && (b % 16) * 4 == 20
    ensures b == 0x45
  {
  }

  lemma ErrorsAreComplete(cfg: Config, f: bytes)
    requires |f| >= 62
    ensures Rest6(f) == Behind6(f)
    ensures Decision6(cfg, f) == Translate ==> IsError(f, Rest6(f)) == ErrorMessage(f)
    ensures Decision6(cfg, f) == Translate && ErrorMessage(f) ==> ErrorDecision(cfg, Rest6(f)) == Translate
  {
  }

  /** Echo request becomes echo request and reply becomes reply. */
  lemma IngressEchoOctets(cfg: Config, mode: Mode, f: bytes, g: bytes, exact: bool)
    requires Rel6(cfg, mode, f, g, exact) && Upper(f) == 58 && !ErrorMessage(f)
    ensures |f| >= 62 && |Behind6(f)| >= 8 && |g| > 34
    ensures var t := Behind6(f)[0];
            (t == 128 && g[34] == 8) || (t == 129 && g[34] == 0)
  {
    ErrorsAreComplete(cfg, f);
    var a, b := Rest6(f), g[34..];
    assert FieldPatched(mode, a[0 := EchoType4(a[0])], b, 2, EchoDelta6(f, a[0]), false);
    assert b[0] == g[34];
  }

  // ---- ICMPv6 errors

  /** Type, code and second word of the ICMPv4 error, for every ICMPv6 error that gets through
      (RFC 7915, section 5.2). Codes 1, 5 and 6 of an unreachable are host administratively
      prohibited, code 4 is port unreachable, the others host unreachable. */
  lemma ErrorOctets(cfg: Config, mode: Mode, f: bytes, g: bytes, exact: bool)
    requires Rel6(cfg, mode, f, g, exact) && IsError(f, Rest6(f))
    ensures |g| >= 62 && |Rest6(f)| >= 48 && SayableError(Rest6(f))
    ensures var a := Rest6(f);
            && (a[0] == 1 ==> g[34] == 3 && g[35] == if a[1] == 4 then 3 else if a[1] in {1, 5, 6} then 10 else 1)
            && (a[0] == 2 ==> g[34] == 3 && g[35] == 4)
            && (a[0] == 3 ==> g[34] == 11 && g[35] == a[1])
            && (a[0] == 4 && a[1] == 1 ==> g[34] == 3 && g[35] == 2)
            && (a[0] == 4 && a[1] == 0 ==> g[34] == 12 && g[35] == 0)
            && (a[0] == 4 ==> a[1] <= 1)
            && (a[0] in {1, 3} || (a[0] == 4 && a[1] == 1) ==> g[38..42] == [0, 0, 0, 0])
            && (a[0] == 4 && a[1] == 0 ==> g[39..42] == [0, 0, 0])
            && (a[0] == 2 ==> g[38..40] == [0, 0])
  {
    var a := Rest6(f);
    ErrorReads(cfg, mode, f, g, exact);
    SayableMeans(a[0], a[1], GetBe32(a, 4));
    ErrorWordOctets(a, ErrorMap(a[0], a[1], GetBe32(a, 4)), g[38..42]);
    assert g[38..40] == g[38..42][..2] && g[39..42] == g[38..42][1..];
  }

  lemma ErrorReads(cfg: Config, mode: Mode, f: bytes, g: bytes, exact: bool)
    requires Rel6(cfg, mode, f, g, exact) && IsError(f, Rest6(f))
    ensures var a := Rest6(f);
            && |g| >= 62 && InComplete(a) && |a| >= 48
            && var m := ErrorMap(a[0], a[1], GetBe32(a, 4));
            && m.Map? && g[34] == m.kind && g[35] == m.code
            && g[38..42] == ErrorWord(a, m) && g[42..62] == InnerHdr(cfg, a)
  {
    L4Rel6Length(cfg, mode, f, Rest6(f), g[34..], exact);
    ErrorTypeReads(cfg, mode, f, Rest6(f), g[34..], exact);
    SliceOfTail(g, 34, 4, 8);
    SliceOfTail(g, 34, 8, 28);
  }

  lemma ErrorWordOctets(a: bytes, m: IcmpMap, w: bytes)
    requires |a| >= 48 && m == ErrorMap(a[0], a[1], GetBe32(a, 4)) && m.Map? && w == ErrorWord(a, m)
    ensures a[0] in {1, 3} || (a[0] == 4 && a[1] == 1) ==> w == [0, 0, 0, 0]
    ensures a[0] == 4 && a[1] == 0 ==> w[1..] == [0, 0, 0]
    ensures a[0] == 2 ==> w[..2] == [0, 0]
  {
  }

  /** Packet too big: the pod is told the path's MTU less what a packet grows by on its way out,
      28 octets if the packet in question was a fragment and 20 otherwise, but no less than 68,
      and what does not fit 16 bits is taken for 65535. */
  lemma TooBigOctets(cfg: Config, mode: Mode, f: bytes, g: bytes, exact: bool)
    requires Rel6(cfg, mode, f, g, exact) && IsError(f, Rest6(f)) && Rest6(f)[0] == 2
    ensures |g| >= 62 && |Rest6(f)| >= 48
    ensures var a := Rest6(f);
            var mtu := if a[4] == 0 && a[5] == 0 then Word(a, 6) else 65535;
            var room := mtu - (if a[14] == 44 then 28 else 20);
            Word(g, 40) == if room < 68 then 68 else room
  {
    var a := Rest6(f);
    ErrorReads(cfg, mode, f, g, exact);
    var mtu := TranslatedMtu(GetBe32(a, 4), InFrag(a));
    SliceOfSlice(g, 38, 42, 2, 4);
    WordOf(g, 40, mtu);
  }

  /** The header of the quoted packet as the pod gets it. */
  lemma EmbeddedOctets(cfg: Config, mode: Mode, f: bytes, g: bytes, exact: bool)
    requires Rel6(cfg, mode, f, g, exact) && IsError(f, Rest6(f))
    ensures |g| >= 62 && TranslatableQuote(cfg, Rest6(f))
    ensures var a := Rest6(f);
            var upper := if a[14] == 44 then a[48] else a[14];
            && g[42] == 0x45 && g[43] == (a[8] % 16) * 16 + a[9] / 16
            && Word(g, 44) == (20 + Word(a, 12) - (if a[14] == 44 then 8 else 0)) % 0x1_0000
            && g[50] == a[15] && g[51] == (if upper == 58 then 1 else upper)
            && g[54..58] == cfg.pod4 && g[58..62] == a[44..48]
            && (if a[14] == 44 then
                  && g[46] == a[54] && g[47] == a[55]
                  && Word(g, 48) == Word(a, 50) / 8 + 0x2000 * (Word(a, 50) % 2)
                else g[46] == 0 && g[47] == 0 && Word(g, 48) == 0x4000)
  {
    var a := Rest6(f);
    ErrorReads(cfg, mode, f, g, exact);
    ErrorVerdicts(cfg, a);
    InnerOctets(cfg, a);
    var h := g[42..62];
    assert g[42] == h[0] && g[43] == h[1] && g[44] == h[2] && g[45] == h[3] && g[46] == h[4] && g[47] == h[5];
    assert g[48] == h[6] && g[49] == h[7] && g[50] == h[8] && g[51] == h[9];
    SliceOfSlice(g, 42, 62, 12, 16);
    SliceOfSlice(g, 42, 62, 16, 20);
  }

  lemma InnerOctets(cfg: Config, a: bytes)
    requires InComplete(a)
    ensures var h := InnerHdr(cfg, a);
            var upper := if a[14] == 44 then a[48] else a[14];
            && h[0] == 0x45 && h[1] == (a[8] % 16) * 16 + a[9] / 16
            && Word(h, 2) == (20 + Word(a, 12) - (if a[14] == 44 then 8 else 0)) % 0x1_0000
            && h[8] == a[15] && h[9] == (if upper == 58 then 1 else upper)
            && h[12..16] == cfg.pod4 && h[16..20] == a[44..48]
            && (if a[14] == 44 then
                  && h[4] == a[54] && h[5] == a[55]
                  && Word(h, 6) == Word(a, 50) / 8 + 0x2000 * (Word(a, 50) % 2)
                else h[4] == 0 && h[5] == 0 && Word(h, 6) == 0x4000)
  {
    var h := InnerHdr(cfg, a);
    var len := InPlen(a) as int + 20 - (if InFrag(a) then 8 else 0);
    Ip4Octets(InTc(a), len, InId4(a), InFrag4(a), InHop(a), Proto(InUpper(a)), cfg.pod4, InDst(a)[12..], h);
    assert InDst(a)[12..] == a[44..48];
    WordOf(h, 2, len);
    WordOf(h, 4, InId4(a));
    WordOf(h, 6, InFrag4(a));
    if a[14] == 44 {
      Identification(a, 52);
      SameWord(h, 4, a, 54);
    }
  }

  lemma Ip4Octets(tos: byte, len: nat, id: nat, frag: nat, ttl: byte, proto: byte, src: Addr4, dst: Addr4, h: bytes)
    requires h == Ip4HdrSummed(tos, len, id, frag, ttl, proto, src, dst)
    ensures |h| == 20 && h[0] == 0x45 && h[1] == tos && h[2..4] == Be16(len) && h[4..6] == Be16(id)
    ensures h[6..8] == Be16(frag) && h[8] == ttl && h[9] == proto && h[12..16] == src && h[16..20] == dst
  {
  }

  /** The pointer of a parameter problem. The octet the ICMPv6 error points at, in the quoted IPv6
      header, and the octet the ICMPv4 error points at, in the embedded IPv4 header, begin the
      same field: version, length, protocol, time to live, source or destination. */
  lemma PointerOctets(cfg: Config, mode: Mode, f: bytes, g: bytes, exact: bool)
    requires Rel6(cfg, mode, f, g, exact) && IsError(f, Rest6(f)) && Rest6(f)[0] == 4 && Rest6(f)[1] == 0
    ensures |g| >= 62 && |Rest6(f)| >= 48 && g[38] <= 16
    ensures var a := Rest6(f);
            var p6, p4 := 0x1_0000 * Word(a, 4) + Word(a, 6), g[38] as int;
            && p6 in {0, 4, 6, 7, 8, 24}
            && (p6 == 0 ==> a[8 + p6] / 16 == 6 && g[42 + p4] / 16 == 4)
            && (p6 == 4 ==> Word(g, 42 + p4) == (20 + Word(a, 8 + p6) - (if a[14] == 44 then 8 else 0)) % 0x1_0000)
            && (p6 == 6 && a[14] != 44 ==> g[42 + p4] == if a[8 + p6] == 58 then 1 else a[8 + p6])
            && (p6 == 6 && a[14] == 44 ==> |a| >= 56 && g[42 + p4] == if a[48] == 58 then 1 else a[48])
            && (p6 == 7 ==> g[42 + p4] == a[8 + p6])
            && (p6 == 8 ==> a[8 + p6..24 + p6] == cfg.pod6 && g[42 + p4..46 + p4] == cfg.pod4)
            && (p6 == 24 ==> a[8 + p6..24 + p6] == cfg.prefix[..12] + g[42 + p4..46 + p4])
  {
    var a := Rest6(f);
    ErrorReads(cfg, mode, f, g, exact);
    EmbeddedOctets(cfg, mode, f, g, exact);
    PointerMaps(a, ErrorMap(a[0], a[1], GetBe32(a, 4)), g[38..42]);
    assert g[38] == g[38..42][0];
    assert a[32..48] == a[32..44] + a[44..48];
  }

  lemma PointerMaps(a: bytes, m: IcmpMap, w: bytes)
    requires |a| >= 48 && m == ErrorMap(a[0], a[1], GetBe32(a, 4)) && m.Map? && w == ErrorWord(a, m)
    requires a[0] == 4 && a[1] == 0
    ensures var p := 0x1_0000 * Word(a, 4) + Word(a, 6);
            (p, w[0] as int) in {(0, 0), (4, 2), (6, 9), (7, 8), (8, 12), (24, 16)}
  {
  }

  /** A quoted echo is a quoted echo of the same kind to the pod. */
  lemma EmbeddedEchoOctets(cfg: Config, mode: Mode, f: bytes, g: bytes, exact: bool)
    requires Rel6(cfg, mode, f, g, exact) && IsError(f, Rest6(f))
    requires |Rest6(f)| > 48 && Rest6(f)[14] == 58 && Rest6(f)[48] in {128, 129}
    ensures |g| > 62 && g[62] == if Rest6(f)[48] == 128 then 8 else 0
  {
    var a, b := Rest6(f), g[34..];
    ErrorReads(cfg, mode, f, g, exact);
    assert QuotesEcho(a) && Quoted(a)[0] == a[48];
    L4Rel6Length(cfg, mode, f, a, b, exact);
    var q := Quoted(a);
    assert FieldReplaced(q[0 := EchoType4(q[0])], b[28..], 2, InEchoDelta(a, q[0]));
    assert b[28..][0] == g[62];
  }

  // ---- the sums

  /** The pseudo-headers of RFC 768 and of section 8.1 of RFC 8200. */
  lemma PseudoOctets(src4: Addr4, dst4: Addr4, src6: Addr6, dst6: Addr6, proto: byte, n: u16)
    ensures var p := Pseudo4(src4, dst4, proto, n);
            p[..4] == src4 && p[4..8] == dst4 && p[8] == 0 && p[9] == proto && Word(p, 10) == n
    ensures var p := Pseudo6(src6, dst6, proto, n);
            && p[..16] == src6 && p[16..32] == dst6 && p[32] == 0 && p[33] == 0 && Word(p, 34) == n
            && p[36] == 0 && p[37] == 0 && p[38] == 0 && p[39] == proto
  {
    var p4, p6 := Pseudo4(src4, dst4, proto, n), Pseudo6(src6, dst6, proto, n);
    assert p4[10..12] == Be16(n) && p6[32..36] == Be32(n) && p6[32..36][2..4] == Be16(n);
    SliceOfSlice(p6, 32, 36, 2, 4);
    WordOf(p4, 10, n);
    WordOf(p6, 34, n);
  }
}
