/** Header layouts: builders for what the programs write, accessors for what any reader of the
    frame sees, and the pseudo-headers of the two families. */
module Headers {
  import opened Bytes
  import opened Checksum

  type Addr4 = b: bytes | |b| == 4 witness [0, 0, 0, 0]
  type Addr6 = b: bytes | |b| == 16
    witness [0, 0, 0, 0, 0, 0, 0, 0, 0, 0, 0, 0, 0, 0, 0, 0]

  const ICMP: byte := 1
  const TCP: byte := 6
  const UDP: byte := 17
  const FRAGMENT: byte := 44
  const ICMPV6: byte := 58

  const IP_DF: nat := 0x4000
  const IP_MF: nat := 0x2000

  const ETHER_IP4: bytes := [0x08, 0x00]
  const ETHER_IP6: bytes := [0x86, 0xdd]

  /** The per-pod constants of the programs. */
  datatype Config = Config(prefix: Addr6, pod6: Addr6, pod4: Addr4, err4: Addr4)

  /** RFC 6052, /96: the address that stands for `a` inside the prefix. */
  function Mapped(cfg: Config, a: Addr4): Addr6 {
    cfg.prefix[..12] + a
  }

  predicate InPrefix(cfg: Config, a: Addr6) {
    a[..12] == cfg.prefix[..12]
  }

  /** Next headers the ingress program refuses. */
  predicate IsExtHdr(nh: byte) {
    nh in {0, 43, 44, 60, 51, 59, 135, 139, 140}
  }

  // ---- builders

  function Ip6Hdr(tos: byte, plen: nat, nh: byte, hop: byte, src: Addr6, dst: Addr6): (h: bytes)
    ensures |h| == 40
  {
    [0x60 + tos / 16, (tos % 16) * 16, 0, 0] + Be16(plen) + [nh, hop] + src + dst
  }

  function FragHdr(nh: byte, off8: nat, more: bool, id: nat): (h: bytes)
    ensures |h| == 8
  {
    [nh, 0] + Be16(off8 * 8 + if more then 1 else 0) + Be32(id)
  }

  /** A 20-byte IPv4 header with the checksum field as given. */
  function Ip4Hdr(tos: byte, totLen: nat, id: nat, frag: nat, ttl: byte, proto: byte, check: bytes,
                  src: Addr4, dst: Addr4): (h: bytes)
    requires |check| == 2
    ensures |h| == 20
  {
    [0x45, tos] + Be16(totLen) + Be16(id) + Be16(frag) + [ttl, proto] + check + src + dst
  }

  /** The same header with its checksum, computed and stored natively. */
  ghost function Ip4HdrSummed(tos: byte, totLen: nat, id: nat, frag: nat, ttl: byte, proto: byte,
                        src: Addr4, dst: Addr4): (h: bytes)
    ensures |h| == 20
  {
    var blank := Ip4Hdr(tos, totLen, id, frag, ttl, proto, [0, 0], src, dst);
    Ip4Hdr(tos, totLen, id, frag, ttl, proto, Le16(Csum(Le(blank))), src, dst)
  }

  function Pseudo4(src: Addr4, dst: Addr4, proto: byte, len: nat): (h: bytes)
    ensures |h| == 12
  {
    src + dst + [0, proto] + Be16(len)
  }

  function Pseudo6(src: Addr6, dst: Addr6, nh: byte, len: nat): (h: bytes)
    ensures |h| == 40
  {
    src + dst + Be32(len) + [0, 0, 0, nh]
  }

  // ---- accessors for an IPv4 frame

  predicate Has4(f: bytes) {
    |f| >= 34
  }

  function EtherType(f: bytes): bytes
    requires |f| >= 14
  {
    f[12..14]
  }

  function Version(f: bytes): nat
    requires Has4(f)
  {
    f[14] / 16
  }

  function Ihl(f: bytes): nat
    requires Has4(f)
  {
    (f[14] % 16) * 4
  }

  function Tos4(f: bytes): byte
    requires Has4(f)
  {
    f[15]
  }

  function TotLen(f: bytes): u16
    requires Has4(f)
  {
    GetBe16(f, 16)
  }

  function Id4(f: bytes): u16
    requires Has4(f)
  {
    GetBe16(f, 18)
  }

  function FragWord(f: bytes): u16
    requires Has4(f)
  {
    GetBe16(f, 20)
  }

  function Off4(f: bytes): nat
    requires Has4(f)
  {
    FragWord(f) % 0x2000
  }

  predicate More4(f: bytes)
    requires Has4(f)
  {
    (FragWord(f) / 0x2000) % 2 == 1
  }

  predicate Df4(f: bytes)
    requires Has4(f)
  {
    (FragWord(f) / 0x4000) % 2 == 1
  }

  predicate IsFrag4(f: bytes)
    requires Has4(f)
  {
    More4(f) || Off4(f) != 0
  }

  function Ttl4(f: bytes): byte
    requires Has4(f)
  {
    f[22]
  }

  function Proto4(f: bytes): byte
    requires Has4(f)
  {
    f[23]
  }

  function Src4(f: bytes): Addr4
    requires Has4(f)
  {
    f[26..30]
  }

  function Dst4(f: bytes): Addr4
    requires Has4(f)
  {
    f[30..34]
  }

  /** Everything behind the IPv4 header, trailing padding included. */
  function Rest4(f: bytes): bytes
    requires Has4(f) && 14 + Ihl(f) <= |f|
  {
    f[14 + Ihl(f)..]
  }

  // ---- accessors for an IPv6 frame

  predicate Has6(f: bytes) {
    |f| >= 54
  }

  function Version6(f: bytes): nat
    requires Has6(f)
  {
    f[14] / 16
  }

  function Tc6(f: bytes): byte
    requires Has6(f)
  {
    (f[14] % 16) * 16 + f[15] / 16
  }

  function PayloadLen(f: bytes): u16
    requires Has6(f)
  {
    GetBe16(f, 18)
  }

  /** The next-header byte of the base header. */
  function Nh6(f: bytes): byte
    requires Has6(f)
  {
    f[20]
  }

  function Hop6(f: bytes): byte
    requires Has6(f)
  {
    f[21]
  }

  function Src6(f: bytes): Addr6
    requires Has6(f)
  {
    f[22..38]
  }

  function Dst6(f: bytes): Addr6
    requires Has6(f)
  {
    f[38..54]
  }

  /** The frame carries a Fragment header right behind the base header. */
  predicate IsFrag6(f: bytes)
    requires Has6(f)
  {
    Nh6(f) == FRAGMENT
  }

  function HdrEnd6(f: bytes): nat
    requires Has6(f)
  {
    if IsFrag6(f) then 62 else 54
  }

  function FragWord6(f: bytes): u16
    requires |f| >= 62
  {
    GetBe16(f, 56)
  }

  function Off6(f: bytes): nat
    requires |f| >= 62
  {
    FragWord6(f) / 8
  }

  predicate More6(f: bytes)
    requires |f| >= 62
  {
    FragWord6(f) % 2 == 1
  }

  function Id6(f: bytes): u32
    requires |f| >= 62
  {
    GetBe32(f, 58)
  }

  /** The upper-layer protocol, behind a Fragment header if there is one. */
  function Upper6(f: bytes): byte
    requires |f| >= 62
  {
    if IsFrag6(f) then f[54] else Nh6(f)
  }

  function Rest6(f: bytes): bytes
    requires |f| >= 62
  {
    f[HdrEnd6(f)..]
  }

  // ---- what the builders mean to a reader

  lemma Ip6HdrReads(pre: bytes, tos: byte, plen: nat, nh: byte, hop: byte, src: Addr6, dst: Addr6, rest: bytes)
    requires |pre| == 14
    ensures var f := pre + Ip6Hdr(tos, plen, nh, hop, src, dst) + rest;
            && Version6(f) == 6 && Tc6(f) == tos && PayloadLen(f) == plen % 0x1_0000
            && Nh6(f) == nh && Hop6(f) == hop && Src6(f) == src && Dst6(f) == dst
            && f[..14] == pre && f[54..] == rest
  {
    var h := Ip6Hdr(tos, plen, nh, hop, src, dst);
    var f := pre + h + rest;
    assert f[14..54] == h;
    assert h[4..6] == Be16(plen);
    Be16Truncates(plen);
    assert GetBe16(f, 18) == GetBe16(Be16(plen), 0);
    assert h[8..24] == src && h[24..40] == dst;
  }

  lemma FragHdrReads(pre: bytes, nh: byte, off8: nat, more: bool, id: u32, rest: bytes)
    requires |pre| == 54 && off8 < 0x2000
    ensures var f := pre + FragHdr(nh, off8, more, id) + rest;
            && f[54] == nh && Off6(f) == off8 && More6(f) == more && Id6(f) == id
            && f[..54] == pre && f[62..] == rest
  {
    var h := FragHdr(nh, off8, more, id);
    var f := pre + h + rest;
    var w := off8 * 8 + if more then 1 else 0;
    assert f[54..62] == h;
    assert h[2..4] == Be16(w) && h[4..8] == Be32(id);
    Be16RoundTrip(w);
    Be32RoundTrip(id);
    assert GetBe16(f, 56) == GetBe16(Be16(w), 0);
    assert GetBe32(f, 58) == GetBe32(Be32(id), 0);
  }

  lemma Ip4HdrReads(pre: bytes, tos: byte, totLen: nat, id: u16, frag: u16, ttl: byte, proto: byte,
                    src: Addr4, dst: Addr4, rest: bytes)
    requires |pre| == 14
    ensures var f := pre + Ip4HdrSummed(tos, totLen, id, frag, ttl, proto, src, dst) + rest;
            && Version(f) == 4 && Ihl(f) == 20 && Tos4(f) == tos && TotLen(f) == totLen % 0x1_0000
            && Id4(f) == id && FragWord(f) == frag && Ttl4(f) == ttl && Proto4(f) == proto
            && Src4(f) == src && Dst4(f) == dst && f[..14] == pre && Rest4(f) == rest
  {
    var h := Ip4HdrSummed(tos, totLen, id, frag, ttl, proto, src, dst);
    var f := pre + h + rest;
    assert f[14..34] == h;
    assert h[2..4] == Be16(totLen) && h[4..6] == Be16(id) && h[6..8] == Be16(frag);
    Be16Truncates(totLen);
    Be16RoundTrip(id);
    Be16RoundTrip(frag);
    assert GetBe16(f, 16) == GetBe16(Be16(totLen), 0);
    assert GetBe16(f, 18) == GetBe16(Be16(id), 0);
    assert GetBe16(f, 20) == GetBe16(Be16(frag), 0);
    assert h[12..16] == src && h[16..20] == dst;
  }

  // ---- header checksum

  /** The header as built verifies under the reference arithmetic, and the native store put the
      reference checksum in network order into the field. */
  lemma Ip4HeaderVerifies(tos: byte, totLen: nat, id: nat, frag: nat, ttl: byte, proto: byte,
                          src: Addr4, dst: Addr4)
    ensures var blank := Ip4Hdr(tos, totLen, id, frag, ttl, proto, [0, 0], src, dst);
            var h := Ip4HdrSummed(tos, totLen, id, frag, ttl, proto, src, dst);
            && Verifies([], h)
            && h == Splice(blank, 10, Be16(RefCsum(Sum16(blank))))
  {
    var blank := Ip4Hdr(tos, totLen, id, frag, ttl, proto, [0, 0], src, dst);
    var h := Ip4HdrSummed(tos, totLen, id, frag, ttl, proto, src, dst);
    var t := Le(blank);
    var c := Csum(t);
    assert h == Splice(blank, 10, Le16(c));
    assert GetLe16(blank, 10) == 0;
    LeField(blank, 10, c);
    assert blank[0] == 0x45;
    SumZero(blank, false);
    CongOffset(c, 0 - t as int, t);
    VerifiesSpec([], h);
    Sum16IsSwappedLe(blank);
    CsumIsReference(t);
    NativeStoreIsNetworkOrder(t, Sum16(blank));
  }

  // ---- pseudo-header sums

  lemma Pseudo4Sum(src: Addr4, dst: Addr4, proto: byte, len: u16)
    ensures Le(Pseudo4(src, dst, proto, len))
            == Le(src + dst) + 0x100 * (proto as int) + Le(Be16(len))
  {
    LeConcat3(src + dst, [0, proto], Be16(len));
    Le2([0, proto]);
  }

  lemma Pseudo6Sum(src: Addr6, dst: Addr6, nh: byte, len: u16)
    ensures Le(Pseudo6(src, dst, nh, len))
            == Le(src + dst) + 0x100 * (nh as int) + Le(Be16(len))
  {
    LeConcat3(src + dst, Be32(len), [0, 0, 0, nh]);
    Le4(0, 0, 0, nh);
    LeConcat(Be16(0), Be16(len));
    Le2(Be16(0));
    assert len / 0x1_0000 == 0;
  }

  /** Between the families only the addresses change, and a pseudo-header is never empty. */
  lemma PseudoPair(s4: Addr4, d4: Addr4, s6: Addr6, d6: Addr6, proto: byte, len: nat)
    requires proto != 0 && len <= 0xffff
    ensures Le(Pseudo6(s6, d6, proto, len)) - Le(Pseudo4(s4, d4, proto, len))
            == Le(s6 + d6) - Le(s4 + d4)
    ensures Le(Pseudo6(s6, d6, proto, len)) > 0 && Le(Pseudo4(s4, d4, proto, len)) > 0
  {
    Pseudo4Sum(s4, d4, proto, len);
    Pseudo6Sum(s6, d6, proto, len);
  }
}
