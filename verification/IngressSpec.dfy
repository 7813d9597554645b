/** What `clat_ingress` must do with a frame: which frames it owns, the verdict it owes them when
    no helper refuses, and the relation between an accepted frame and its translation. */
module IngressSpec {
  import opened Bytes
  import opened Checksum
  import opened Headers
  import opened Kernel
  import opened Counters
  import opened EgressSpec

  const ICMP_DEST_UNREACH: byte := 3
  const ICMP_TIME_EXCEEDED: byte := 11
  const ICMP_PARAMETERPROB: byte := 12

  const ICMP6_DEST_UNREACH: byte := 1
  const ICMP6_PKT_TOOBIG: byte := 2
  const ICMP6_TIME_EXCEED: byte := 3
  const ICMP6_PARAMPROB: byte := 4

  // ---- ICMPv6 errors (RFC 7915, section 5.2)

  datatype IcmpMap = NoMap | Map(kind: byte, code: byte, pointer: nat)

  /** `icmp6_to_icmp4`: the ICMPv4 error for an ICMPv6 error, if there is one. */
  function ErrorMap(kind: byte, code: byte, pointer6: u32): IcmpMap {
    if kind == ICMP6_DEST_UNREACH then
      Map(ICMP_DEST_UNREACH, if code in {1, 5, 6} then 10 else if code == 4 then 3 else 1, 0)
    else if kind == ICMP6_PKT_TOOBIG then Map(ICMP_DEST_UNREACH, 4, 0)
    else if kind == ICMP6_TIME_EXCEED then Map(ICMP_TIME_EXCEEDED, code, 0)
    else if kind == ICMP6_PARAMPROB then
      if code == 1 then Map(ICMP_DEST_UNREACH, 2, 0)
      else if code != 0 then NoMap
      else match pointer6
        case 0 => Map(ICMP_PARAMETERPROB, 0, 0)
        case 4 => Map(ICMP_PARAMETERPROB, 0, 2)
        case 6 => Map(ICMP_PARAMETERPROB, 0, 9)
        case 7 => Map(ICMP_PARAMETERPROB, 0, 8)
        case 8 => Map(ICMP_PARAMETERPROB, 0, 12)
        case 24 => Map(ICMP_PARAMETERPROB, 0, 16)
        case _ => NoMap
    else NoMap
  }

  /** The MTU an IPv4 sender is told: what the path offers less the header growth, between 68
      and what 16 bits hold. */
  function TranslatedMtu(mtu: u32, inFrag: bool): (r: u16)
    ensures r >= 68
  {
    var m := if mtu > 0xffff then 0xffff else mtu;
    var grow := if inFrag then 28 else 20;
    if m > grow + 68 then m - grow else 68
  }

  // ---- the packet an error quotes; `a` starts at the ICMPv6 header

  function InTc(a: bytes): byte
    requires |a| >= 48
  {
    (a[8] % 16) * 16 + a[9] / 16
  }

  function InPlen(a: bytes): u16
    requires |a| >= 48
  {
    GetBe16(a, 12)
  }

  function InHop(a: bytes): byte
    requires |a| >= 48
  {
    a[15]
  }

  function InSrc(a: bytes): Addr6
    requires |a| >= 48
  {
    a[16..32]
  }

  function InDst(a: bytes): Addr6
    requires |a| >= 48
  {
    a[32..48]
  }

  predicate InFrag(a: bytes)
    requires |a| >= 48
  {
    a[14] == FRAGMENT
  }

  /** The quoted headers are complete. */
  predicate InComplete(a: bytes) {
    |a| >= 48 && (InFrag(a) ==> |a| >= 56)
  }

  function InUpper(a: bytes): byte
    requires InComplete(a)
  {
    if InFrag(a) then a[48] else a[14]
  }

  function InFragWord(a: bytes): u16
    requires InComplete(a) && InFrag(a)
  {
    GetBe16(a, 50)
  }

  /** IPv4 identification and fragment word of the quoted packet. */
  function InId4(a: bytes): u16
    requires InComplete(a)
  {
    if InFrag(a) then GetBe32(a, 52) % 0x1_0000 else 0
  }

  function InFrag4(a: bytes): u16
    requires InComplete(a)
  {
    if InFrag(a) then InFragWord(a) / 8 + (if InFragWord(a) % 2 == 1 then IP_MF else 0) else IP_DF
  }

  function InHdrEnd(a: bytes): nat
    requires InComplete(a)
  {
    if InFrag(a) then 56 else 48
  }

  /** The quoted transport bytes, as far as the router quoted them. */
  function Quoted(a: bytes): bytes
    requires InComplete(a)
  {
    a[InHdrEnd(a)..]
  }

  /** The quoted packet went from the pod into the prefix. */
  predicate QuotesOurFlow(cfg: Config, a: bytes) {
    |a| >= 48 && a[8] / 16 == 6 && InSrc(a) == cfg.pod6 && InPrefix(cfg, InDst(a))
  }

  // ---- which frames are ours

  predicate Selected(cfg: Config, f: bytes) {
    && |f| >= 62 && Version6(f) == 6 && Dst6(f) == cfg.pod6
    && (InPrefix(cfg, Src6(f))
        || (Nh6(f) == ICMPV6 && |f| >= 102 && ICMP6_DEST_UNREACH <= f[54] <= ICMP6_PARAMPROB
            && QuotesOurFlow(cfg, f[54..])))
  }

  /** Transport length claimed by the headers. */
  function L4Len6(f: bytes): int
    requires |f| >= 62
  {
    PayloadLen(f) as int - if IsFrag6(f) then 8 else 0
  }

  predicate IsEcho6(t: byte) {
    t == ICMP6_ECHO || t == ICMP6_ECHOREPLY
  }

  function EchoType4(t6: byte): byte {
    if t6 == ICMP6_ECHO then ICMP_ECHO else ICMP_ECHOREPLY
  }

  /** The quote is too short for what the program must read of it. */
  predicate BadQuote(a: bytes)
    requires InComplete(a)
  {
    InUpper(a) == ICMPV6 && !InFrag(a)
    && (|Quoted(a)| < 2 || (IsEcho6(Quoted(a)[0]) && |Quoted(a)| < 4))
  }

  /** The verdict on an ICMPv6 message that is not an echo. */
  function ErrorDecision(cfg: Config, a: bytes): Outcome
    requires |a| >= 8
  {
    if ErrorMap(a[0], a[1], GetBe32(a, 4)).NoMap? then Drop(IngressIcmpUnsupported)
    else if !QuotesOurFlow(cfg, a) || !InComplete(a) || IsExtHdr(InUpper(a)) then Drop(IngressIcmpInner)
    else if BadQuote(a) then Drop(IngressIcmpInner)
    else Translate
  }

  function L4Decision6(cfg: Config, f: bytes, a: bytes): Outcome
    requires |f| >= 62
  {
    if IsFrag6(f) && Off6(f) != 0 then Translate
    else if Upper6(f) == TCP then
      if |a| < 18 then Drop(IngressHelper) else Translate
    else if Upper6(f) == UDP then
      if |a| < 8 then Drop(IngressTruncated)
      else if GetLe16(a, 6) == 0 then Drop(IngressUdpZeroCsum)
      else Translate
    else if Upper6(f) == ICMPV6 then
      if |a| < 8 then Drop(IngressTruncated)
      else if IsEcho6(a[0]) then Translate
      else ErrorDecision(cfg, a)
    else Translate
  }

  /** The verdict on a frame whose Ethernet type says IPv6. */
  function Decision6(cfg: Config, f: bytes): Outcome {
    if !Selected(cfg, f) then Pass
    else if L4Len6(f) < 0 then Drop(IngressTruncated)
    else if IsExtHdr(Upper6(f)) then Drop(IngressExtHdr)
    else if Upper6(f) == ICMPV6 && IsFrag6(f) then Drop(IngressFragIcmp)
    else L4Decision6(cfg, f, Rest6(f))
  }

  // ---- the translation

  function Proto(nh: byte): byte {
    if nh == ICMPV6 then ICMP else nh
  }

  function Source4(cfg: Config, f: bytes): Addr4
    requires |f| >= 62
  {
    if InPrefix(cfg, Src6(f)) then Src6(f)[12..] else cfg.err4
  }

  function FragId(f: bytes): u16
    requires |f| >= 62
  {
    if IsFrag6(f) then Id6(f) % 0x1_0000 else 0
  }

  function Frag4Word(f: bytes): u16
    requires |f| >= 62
  {
    if IsFrag6(f) then Off6(f) + (if More6(f) then IP_MF else 0) else IP_DF
  }

  /** The outer IPv4 header for a packet that loses `shrink` bytes behind it. */
  ghost function OuterHdr(cfg: Config, f: bytes, shrink: nat): (h: bytes)
    requires |f| >= 62
    ensures |h| == 20
  {
    Ip4HdrSummed(Tc6(f), (L4Len6(f) + 20 - shrink) % 0x1_0000, FragId(f), Frag4Word(f), Hop6(f),
                 Proto(Upper6(f)), Source4(cfg, f), cfg.pod4)
  }

  ghost function Head4(cfg: Config, f: bytes, shrink: nat): (h: bytes)
    requires |f| >= 62
    ensures |h| == 34
  {
    f[..12] + ETHER_IP4 + OuterHdr(cfg, f, shrink)
  }

  function AddrDelta6(cfg: Config, f: bytes): int
    requires |f| >= 62
  {
    Le(Source4(cfg, f) + cfg.pod4) - Le(Src6(f) + Dst6(f))
  }

  /** The pseudo-header an ICMPv6 message is summed with. */
  function IcmpPseudo(f: bytes): bytes
    requires |f| >= 62 && L4Len6(f) >= 0
  {
    Pseudo6(Src6(f), Dst6(f), ICMPV6, L4Len6(f))
  }

  function EchoDelta6(f: bytes, t6: byte): int
    requires |f| >= 62 && L4Len6(f) >= 0
  {
    EchoType4(t6) as int - t6 as int - Le(IcmpPseudo(f))
  }

  /** The second word of the new ICMPv4 header. */
  function ErrorWord(a: bytes, m: IcmpMap): (w: bytes)
    requires |a| >= 48 && m.Map?
    ensures |w| == 4
  {
    if a[0] == ICMP6_PKT_TOOBIG then [0, 0] + Be16(TranslatedMtu(GetBe32(a, 4), InFrag(a)))
    else if m.kind == ICMP_PARAMETERPROB then [m.pointer % 256, 0, 0, 0]
    else [0, 0, 0, 0]
  }

  /** The embedded IPv4 header. */
  ghost function InnerHdr(cfg: Config, a: bytes): (h: bytes)
    requires InComplete(a)
    ensures |h| == 20
  {
    Ip4HdrSummed(InTc(a), InPlen(a) as int + 20 - (if InFrag(a) then 8 else 0), InId4(a), InFrag4(a),
                 InHop(a), Proto(InUpper(a)), cfg.pod4, InDst(a)[12..])
  }

  /** ICMPv4 header with a zero checksum field, and the embedded header: what replaces the first
      48 or 56 bytes of the message. */
  ghost function NewError(cfg: Config, a: bytes): (r: bytes)
    requires InComplete(a) && ErrorMap(a[0], a[1], GetBe32(a, 4)).Map?
    ensures |r| == 28
  {
    var m := ErrorMap(a[0], a[1], GetBe32(a, 4));
    [m.kind, m.code, 0, 0] + ErrorWord(a, m) + InnerHdr(cfg, a)
  }

  function Shrinkage(a: bytes): nat
    requires InComplete(a)
  {
    if InFrag(a) then 28 else 20
  }

  /** An embedded checksum rewritten by a plain 32-bit addition, which drops a carry if there is
      one. */
  ghost predicate PlainPatch(d: u32, oc: u16, nc: u16, delta: int) {
    Cong(d, delta) && nc == CsumFold((d as int + 0xffff - oc as int) % 0x1_0000_0000)
  }

  ghost predicate InnerPatched(oc: u16, nc: u16, delta: int) {
    exists d: u32 :: PlainPatch(d, oc, nc, delta)
  }

  function InAddrDelta(cfg: Config, a: bytes): int
    requires |a| >= 48
  {
    Le(cfg.pod4 + InDst(a)[12..]) - Le(InSrc(a) + InDst(a))
  }

  function InEchoDelta(a: bytes, t6: byte): int
    requires |a| >= 48
  {
    EchoType4(t6) as int - t6 as int - Le(Pseudo6(InSrc(a), InDst(a), ICMPV6, InPlen(a)))
  }

  /** Where the embedded transport checksum is, 0 if the program does not know. */
  function ChecksumOffset(nh: byte): nat {
    if nh == UDP then 6 else if nh == TCP then 16 else 0
  }

  /** The quoted packet is an echo whose checksum can be computed. */
  predicate QuotesEcho(a: bytes)
    requires InComplete(a)
  {
    InUpper(a) == ICMPV6 && !InFrag(a) && |Quoted(a)| >= 4 && IsEcho6(Quoted(a)[0])
  }

  /** The quote carries a TCP or UDP checksum. */
  predicate QuotesChecksum(a: bytes)
    requires InComplete(a)
  {
    var off := ChecksumOffset(InUpper(a));
    && off != 0 && InFrag4(a) % 0x2000 == 0
    && off + 2 <= |Quoted(a)| && GetLe16(Quoted(a), off) != 0
  }

  /** A field of the quoted transport bytes is rewritten. */
  predicate Patches(a: bytes)
    requires InComplete(a)
  {
    QuotesEcho(a) || QuotesChecksum(a)
  }

  function PatchOffset(a: bytes): nat
    requires InComplete(a)
  {
    if QuotesEcho(a) then 2 else ChecksumOffset(InUpper(a))
  }

  function PatchDelta(cfg: Config, a: bytes): int
    requires InComplete(a)
  {
    if QuotesEcho(a) then InEchoDelta(a, Quoted(a)[0]) else InAddrDelta(cfg, a)
  }

  /** The quoted transport bytes the program may change: the checksum field and an echo's type. */
  predicate Rewritten(a: bytes, i: int)
    requires InComplete(a)
  {
    || (Patches(a) && PatchOffset(a) <= i < PatchOffset(a) + 2)
    || (QuotesEcho(a) && i == 0)
  }

  ghost predicate FieldReplaced(q: bytes, r: bytes, off: nat, delta: int) {
    && |r| == |q| && off + 2 <= |q|
    && r == Splice(q, off, Le16(GetLe16(r, off)))
    && InnerPatched(GetLe16(q, off), GetLe16(r, off), delta)
  }

  /** The quoted transport bytes `q` and what becomes of them. When a helper failed to read the
      embedded checksum the program goes on without touching it. */
  ghost predicate QuoteRel(cfg: Config, a: bytes, q: bytes, r: bytes, exact: bool)
    requires InComplete(a) && q == Quoted(a)
  {
    if QuotesEcho(a) then FieldReplaced(q[0 := EchoType4(q[0])], r, 2, InEchoDelta(a, q[0]))
    else if QuotesChecksum(a) then
      || FieldReplaced(q, r, ChecksumOffset(InUpper(a)), InAddrDelta(cfg, a))
      || (!exact && r == q)
    else r == q
  }

  /** The ICMPv4 error `b` for the ICMPv6 error `a`. The checksum field starts at zero and moves
      by everything that changed, pseudo-header included. */
  ghost predicate ErrorRel(cfg: Config, mode: Mode, f: bytes, a: bytes, b: bytes, exact: bool)
    requires |f| >= 62 && L4Len6(f) >= 0 && |a| >= 8 && ErrorDecision(cfg, a) == Translate
  {
    && |b| == |a| - Shrinkage(a)
    && b[..28] == Splice(NewError(cfg, a), 2, Le16(GetLe16(b, 2)))
    && QuoteRel(cfg, a, Quoted(a), b[28..], exact)
    && FieldMoved(mode, 0, GetLe16(b, 2),
                  Le(NewError(cfg, a)) + Le(b[28..]) - Le(IcmpPseudo(f)) - Le(a), false)
  }

  /** An ICMPv6 error, as opposed to an echo or another protocol. */
  predicate IsError(f: bytes, a: bytes)
    requires |f| >= 62
  {
    Upper6(f) == ICMPV6 && |a| >= 8 && !IsEcho6(a[0]) && !(IsFrag6(f) && Off6(f) != 0)
  }

  ghost predicate L4Rel6(cfg: Config, mode: Mode, f: bytes, a: bytes, b: bytes, exact: bool)
    requires |f| >= 62 && L4Len6(f) >= 0 && L4Decision6(cfg, f, a) == Translate
  {
    if IsFrag6(f) && Off6(f) != 0 then b == a
    else if Upper6(f) == TCP then FieldPatched(mode, a, b, 16, AddrDelta6(cfg, f), false)
    else if Upper6(f) == UDP then FieldPatched(mode, a, b, 6, AddrDelta6(cfg, f), true)
    else if Upper6(f) == ICMPV6 then
      if IsEcho6(a[0]) then FieldPatched(mode, a[0 := EchoType4(a[0])], b, 2, EchoDelta6(f, a[0]), false)
      else ErrorRel(cfg, mode, f, a, b, exact)
    else b == a
  }

  /** Bytes lost behind the outer header. */
  function OuterShrink(f: bytes, a: bytes): nat
    requires |f| >= 62
  {
    if IsError(f, a) && InComplete(a) then Shrinkage(a) else 0
  }

  /** `g` is a complete translation of `f`; `exact` says that no helper refused on the way. */
  ghost predicate Rel6(cfg: Config, mode: Mode, f: bytes, g: bytes, exact: bool) {
    && |f| >= 62 && L4Len6(f) >= 0 && Selected(cfg, f)
    && Decision6(cfg, f) == Translate
    && |g| >= 34
    && g[..34] == Head4(cfg, f, OuterShrink(f, Rest6(f)))
    && L4Rel6(cfg, mode, f, Rest6(f), g[34..], exact)
  }
}
