/** The full UDP checksum the egress program computes for datagrams that came without one. */
module UdpChecksum {
  import opened Bytes
  import opened Checksum
  import opened Kernel

  const CHUNK: nat := 256
  const MAX_CHUNKS: nat := 40

  /** RFC 768: a computed zero is sent as all ones. */
  ghost function MangledCsum(total: nat): u16 {
    if Csum(total) == 0 then 0xffff else Csum(total)
  }

  lemma MangledCsumSpec(total: nat)
    ensures MangledCsum(total) != 0
    ensures Cong(MangledCsum(total), 0 - total as int)
  {
    ZeroOrFull(Csum(total), 0 - total as int);
  }

  /** The only non-zero value of its class. */
  lemma MangledCsumUnique(total: nat, v: u16)
    requires v != 0 && Cong(v, 0 - total as int)
    ensures v == MangledCsum(total)
  {
    MangledCsumSpec(total);
    CongSym(MangledCsum(total), 0 - total as int);
    CongTrans(v, 0 - total as int, MangledCsum(total));
    CongUnique(v, MangledCsum(total));
  }

  lemma {:induction false} ZeroPadding(n: nat)
    ensures Le(seq(n, _ => 0)) == 0 && SumAt(seq(n, _ => 0), true) == 0
  {
    SumZero(seq(n, _ => 0), false);
    SumZero(seq(n, _ => 0), true);
  }

  /** Padding with zeros does not change a sum, whatever the parity of the data. */
  lemma PaddedSum(a: bytes, n: nat)
    ensures Le(a + seq(n, _ => 0)) == Le(a)
  {
    SumConcat(a, seq(n, _ => 0), false);
    ZeroPadding(n);
  }

  /** `udp_full_csum`: on success the value is the reference checksum of seed plus datagram. */
  method UdpFullCsum(skb: Skb, l4off: nat, ulen: nat, seed: u32) returns (ok: bool, out: u16)
    requires skb.Valid() && l4off <= |skb.data|
    modifies skb`faulted
    ensures old(skb.faulted) ==> skb.faulted
    ensures ok ==> ulen <= CHUNK * MAX_CHUNKS && l4off + ulen <= |skb.data|
                   && skb.faulted == old(skb.faulted)
                   && out == MangledCsum(seed as int + Le(skb.data[l4off..l4off + ulen]))
    ensures !ok ==> skb.faulted || ulen > CHUNK * MAX_CHUNKS || l4off + ulen > |skb.data|
  {
    ok, out := false, 0;
    if ulen > CHUNK * MAX_CHUNKS {
      return;
    }
    var d := skb.data;
    var sum := seed;
    var off := 0;
    var i := 0;
    CongRefl(seed);
    assert d[l4off..l4off] == [];
    while i < MAX_CHUNKS && off + CHUNK <= ulen
      invariant 0 <= i <= MAX_CHUNKS && off == i * CHUNK <= ulen
      invariant l4off + off <= |d|
      invariant skb.data == d && skb.faulted == old(skb.faulted)
      invariant Cong(sum, seed as int + Le(d[l4off..l4off + off]))
    {
      var okLoad, buf := skb.LoadBytes(l4off + off, CHUNK);
      if !okLoad {
        return;
      }
      var next := CsumDiff([], buf, sum);
      ExtendSum(d, l4off, off, CHUNK, seed, sum, next, Le(buf));
      sum := next;
      off := off + CHUNK;
      i := i + 1;
    }
    var tail := (ulen - off) % CHUNK;
    assert tail == ulen - off;
    if tail != 0 {
      var okLoad, part := skb.LoadBytes(l4off + off, tail);
      if !okLoad {
        return;
      }
      var buf := part + seq(CHUNK - tail, _ => 0);
      var next := CsumDiff([], buf, sum);
      PaddedSum(part, CHUNK - tail);
      ExtendSum(d, l4off, off, tail, seed, sum, next, Le(buf));
      sum := next;
    }
    ok := true;
    out := CsumFold(sum);
    if out == 0 {
      out := 0xffff;
    }
    FoldIsMangled(sum, seed as int + Le(d[l4off..l4off + ulen]), out);
  }

  /** One more block summed behind what is already covered. */
  lemma ExtendSum(d: bytes, l4off: nat, off: nat, n: nat, seed: int, sum: int, next: int, block: int)
    requires off % 2 == 0 && l4off + off + n <= |d|
    requires Cong(sum, seed + Le(d[l4off..l4off + off]))
    requires Cong(next, sum - Le([]) + block) && block == Le(d[l4off + off..l4off + off + n])
    ensures Cong(next, seed + Le(d[l4off..l4off + off + n]))
  {
    var a, b := d[l4off..l4off + off], d[l4off + off..l4off + off + n];
    assert d[l4off..l4off + off + n] == a + b;
    LeConcat(a, b);
    CongOffset(sum, seed + Le(a), block);
    CongTrans(next, sum + block, seed + Le(a) + block);
  }

  lemma FoldIsMangled(sum: u32, total: nat, out: u16)
    requires Cong(sum, total)
    requires out == if CsumFold(sum) == 0 then 0xffff else CsumFold(sum)
    ensures out == MangledCsum(total)
  {
    CsumFoldSpec(sum);
    CongOffset(sum, total, 0);
    CongTrans(CsumFold(sum), 0 - sum as int, 0 - total as int);
    ZeroOrFull(CsumFold(sum), 0 - total as int);
    MangledCsumUnique(total, out);
  }

  /** Stored natively, the value is the reference checksum of pseudo-header and datagram in
      network order. */
  lemma FullCsumIsReference(pseudo: bytes, dgram: bytes)
    requires Le(pseudo) > 0
    ensures var c := RefCsum(Sum16(pseudo) + Sum16(dgram));
            Le16(MangledCsum(Le(pseudo) + Le(dgram))) == Be16(if c == 0 then 0xffff else c)
  {
    var le, be := Le(pseudo) + Le(dgram), Sum16(pseudo) + Sum16(dgram);
    Sum16IsSwappedLe(pseudo);
    Sum16IsSwappedLe(dgram);
    CongAdd(Sum16(pseudo), 0x100 * Le(pseudo), Sum16(dgram), 0x100 * Le(dgram));
    NativeStoreIsNetworkOrder(le, be);
    CsumIsReference(le);
    CongRefl(0);
    SwapCong(le, 0, be, 0);
    ZeroTogether(le, be);
    if RefCsum(le) == 0 {
      assert Le16(0xffff) == Be16(0xffff);
    }
  }

  lemma ZeroTogether(le: nat, be: nat)
    requires le > 0 && be > 0 && (Cong(le, 0) <==> Cong(be, 0))
    ensures RefCsum(le) == 0 <==> RefCsum(be) == 0
  {
    RefCsumSpec(le);
    RefCsumSpec(be);
  }
}
