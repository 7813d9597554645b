/** Translating each fragment on its own and then reassembling gives the reassembled datagram with
    only its checksum field changed, in both directions and in any order of arrival. */
module Reassembly {
  import opened Wrappers
  import opened Bytes
  import opened Checksum
  import opened Headers
  import opened Kernel
  import opened EgressSpec
  import opened IngressSpec
  import opened EgressTheorems
  import opened IngressTheorems

  // ---- reference reassembly

  /** A fragment as a reassembler sees it; the offset counts 8-byte units. */
  datatype Frag = Frag(off: nat, more: bool, payload: bytes)

  /** The first fragment received for an offset. */
  function Find(fs: seq<Frag>, at: nat): (r: Option<Frag>)
    ensures r.Some? ==> r.value.off == at
  {
    if fs == [] then None
    else if fs[0].off == at then Some(fs[0])
    else Find(fs[1..], at)
  }

  /** The datagram from offset `at` on, or nothing when a fragment is missing or ill-formed. */
  function Reassemble(fs: seq<Frag>, at: nat): Option<bytes>
    decreases 0x2000 - at
  {
    if at >= 0x2000 then None
    else
      match Find(fs, at)
      case None => None
      case Some(x) =>
        if !x.more then Some(x.payload)
        else if x.payload == [] || |x.payload| % 8 != 0 then None
        else
          match Reassemble(fs, at + |x.payload| / 8)
          case None => None
          case Some(rest) => Some(x.payload + rest)
  }

  /** Cut points, in 8-byte units, that leave every piece but the last non-empty. */
  predicate Cuts(d: bytes, sizes: seq<nat>) {
    sizes == [] || (sizes[0] > 0 && 8 * sizes[0] <= |d| && Cuts(d[8 * sizes[0]..], sizes[1..]))
  }

  /** A datagram cut at the given points, the first piece at offset `at`. */
  function Split(d: bytes, sizes: seq<nat>, at: nat): (fs: seq<Frag>)
    requires Cuts(d, sizes)
    ensures |fs| > 0 && fs[0].off == at
    decreases |sizes|
  {
    if sizes == [] then [Frag(at, false, d)]
    else [Frag(at, true, d[..8 * sizes[0]])] + Split(d[8 * sizes[0]..], sizes[1..], at + sizes[0])
  }

  function Units(sizes: seq<nat>): nat {
    if sizes == [] then 0 else sizes[0] + Units(sizes[1..])
  }

  /** Pieces have offsets of their own. */
  lemma {:induction false} SplitUnique(d: bytes, sizes: seq<nat>, at: nat, x: Frag, y: Frag)
    requires Cuts(d, sizes) && x in Split(d, sizes, at) && y in Split(d, sizes, at) && x.off == y.off
    ensures x == y && x.off >= at
    decreases |sizes|
  {
    if sizes != [] {
      var first, rest := Split(d, sizes, at)[0], Split(d[8 * sizes[0]..], sizes[1..], at + sizes[0]);
      assert Split(d, sizes, at) == [first] + rest;
      if x in rest {
        SplitUnique(d[8 * sizes[0]..], sizes[1..], at + sizes[0], x, x);
      }
      if y in rest {
        SplitUnique(d[8 * sizes[0]..], sizes[1..], at + sizes[0], y, y);
      }
      if x in rest && y in rest {
        SplitUnique(d[8 * sizes[0]..], sizes[1..], at + sizes[0], x, y);
      }
    }
  }

  lemma {:induction false} FindSound(fs: seq<Frag>, at: nat)
    ensures Find(fs, at).Some? ==> Find(fs, at).value in fs
    ensures Find(fs, at).None? ==> forall x :: x in fs ==> x.off != at
  {
    if fs != [] {
      assert fs == [fs[0]] + fs[1..];
      FindSound(fs[1..], at);
    }
  }

  /** Every piece is what the reassembler finds at its offset. */
  predicate Delivered(fs: seq<Frag>, ps: seq<Frag>) {
    forall i :: 0 <= i < |ps| ==> Find(fs, ps[i].off) == Some(ps[i])
  }

  /** Received in any order, repeated or not, the pieces of a datagram are delivered. */
  lemma AnyOrderDelivers(fs: seq<Frag>, d: bytes, sizes: seq<nat>, at: nat)
    requires Cuts(d, sizes)
    requires forall x :: x in fs <==> x in Split(d, sizes, at)
    ensures Delivered(fs, Split(d, sizes, at))
  {
    var ps := Split(d, sizes, at);
    forall i | 0 <= i < |ps|
      ensures Find(fs, ps[i].off) == Some(ps[i])
    {
      FindSound(fs, ps[i].off);
      assert ps[i] in ps;
      SplitUnique(d, sizes, at, Find(fs, ps[i].off).value, ps[i]);
    }
  }

  /** Every way of cutting a datagram, once delivered, reassembles to the datagram. */
  lemma {:induction false} SplitReassembles(fs: seq<Frag>, d: bytes, sizes: seq<nat>, at: nat)
    requires Cuts(d, sizes) && Delivered(fs, Split(d, sizes, at)) && at + Units(sizes) < 0x2000
    ensures Reassemble(fs, at) == Some(d)
    decreases |sizes|
  {
    var ps := Split(d, sizes, at);
    assert Find(fs, ps[0].off) == Some(ps[0]);
    if sizes != [] {
      var n, rest := sizes[0], d[8 * sizes[0]..];
      TailDelivered(fs, d, sizes, at);
      SplitReassembles(fs, rest, sizes[1..], at + n);
      ReassembleCons(fs, at, d[..8 * n], n, rest);
      assert d[..8 * n] + rest == d;
    }
  }

  lemma TailDelivered(fs: seq<Frag>, d: bytes, sizes: seq<nat>, at: nat)
    requires Cuts(d, sizes) && sizes != [] && Delivered(fs, Split(d, sizes, at))
    ensures Delivered(fs, Split(d[8 * sizes[0]..], sizes[1..], at + sizes[0]))
  {
    var ps, qs := Split(d, sizes, at), Split(d[8 * sizes[0]..], sizes[1..], at + sizes[0]);
    forall i | 0 <= i < |qs|
      ensures Find(fs, qs[i].off) == Some(qs[i])
    {
      assert qs[i] == ps[i + 1];
    }
  }

  lemma ReassembleCons(fs: seq<Frag>, at: nat, payload: bytes, n: nat, rest: bytes)
    requires at < 0x2000 && n > 0 && |payload| == 8 * n
    requires Find(fs, at) == Some(Frag(at, true, payload)) && Reassemble(fs, at + n) == Some(rest)
    ensures Reassemble(fs, at) == Some(payload + rest)
  {
  }

  // ---- a change confined to the start of the datagram

  /** `ys` is `xs` with `v` written at `off` into every fragment that starts the datagram. */
  predicate Patched(xs: seq<Frag>, ys: seq<Frag>, off: nat, v: u16) {
    && |ys| == |xs|
    && forall i :: 0 <= i < |xs| ==> PatchedFrag(xs[i], ys[i], off, v)
  }

  predicate PatchedFrag(x: Frag, y: Frag, off: nat, v: u16) {
    && y.off == x.off && y.more == x.more
    && (x.off == 0 ==> off + 2 <= |x.payload| && y.payload == Splice(x.payload, off, Le16(v)))
    && (x.off != 0 ==> y.payload == x.payload)
  }

  lemma {:induction false} FindPatched(xs: seq<Frag>, ys: seq<Frag>, at: nat, off: nat, v: u16)
    requires Patched(xs, ys, off, v)
    ensures Find(xs, at).Some? == Find(ys, at).Some?
    ensures Find(xs, at).Some? ==> PatchedFrag(Find(xs, at).value, Find(ys, at).value, off, v)
  {
    if xs != [] {
      assert PatchedFrag(xs[0], ys[0], off, v);
      if xs[0].off != at {
        TailPatched(xs, ys, off, v);
        FindPatched(xs[1..], ys[1..], at, off, v);
      }
    }
  }

  lemma TailPatched(xs: seq<Frag>, ys: seq<Frag>, off: nat, v: u16)
    requires Patched(xs, ys, off, v) && xs != []
    ensures Patched(xs[1..], ys[1..], off, v)
  {
    forall i | 0 <= i < |xs[1..]|
      ensures PatchedFrag(xs[1..][i], ys[1..][i], off, v)
    {
      assert PatchedFrag(xs[i + 1], ys[i + 1], off, v);
    }
  }

  lemma {:induction false} TailUnchanged(xs: seq<Frag>, ys: seq<Frag>, at: nat, off: nat, v: u16)
    requires Patched(xs, ys, off, v) && at > 0
    ensures Reassemble(ys, at) == Reassemble(xs, at)
    decreases 0x2000 - at
  {
    if at < 0x2000 {
      FindPatched(xs, ys, at, off, v);
      if Find(xs, at).Some? {
        var x := Find(xs, at).value;
        if x.more && x.payload != [] && |x.payload| % 8 == 0 {
          TailUnchanged(xs, ys, at + |x.payload| / 8, off, v);
        }
      }
    }
  }

  /** Patching and reassembling commute. */
  lemma ReassembleCommutes(xs: seq<Frag>, ys: seq<Frag>, off: nat, v: u16)
    requires Patched(xs, ys, off, v)
    ensures match Reassemble(xs, 0)
            case None => Reassemble(ys, 0) == None
            case Some(d) => off + 2 <= |d| && Reassemble(ys, 0) == Some(Splice(d, off, Le16(v)))
  {
    FindPatched(xs, ys, 0, off, v);
    if Find(xs, 0).Some? {
      var x := Find(xs, 0).value;
      if x.more && x.payload != [] && |x.payload| % 8 == 0 {
        TailUnchanged(xs, ys, |x.payload| / 8, off, v);
        if Reassemble(xs, |x.payload| / 8).Some? {
          var rest := Reassemble(xs, |x.payload| / 8).value;
          assert Splice(x.payload, off, Le16(v)) + rest == Splice(x.payload + rest, off, Le16(v));
        }
      }
    }
  }

  // ---- the new field is a function of the old one

  /** There is a value the field moves to, and outside partial mode only one. */
  lemma MovedField(field: u16, delta: int, mangled: bool) returns (v: u16)
    ensures FieldMoved(SumNone, field, v, delta, mangled)
    ensures forall mode: Mode, w: u16 :: !mode.SumPartial? && FieldMoved(mode, field, w, delta, mangled) ==> w == v
  {
    var x: int := field as int - delta;
    v := x % 0xffff;
    CongMod(x);
    if mangled && v == 0 {
      CongShift(v, x, 1);
      v := 0xffff;
    }
    forall mode: Mode, w: u16 | !mode.SumPartial? && FieldMoved(mode, field, w, delta, mangled)
      ensures w == v
    {
      FieldMovedUnique(mode, field, w, v, delta, mangled);
    }
  }

  /** The patched window of a transport part, given where its field moves to. */
  lemma PatchedWindow(mode: Mode, a: bytes, b: bytes, off: nat, n: nat, delta: int, mangled: bool, v: u16)
    requires FieldPatched(mode, a, b, off, delta, mangled) && !mode.SumPartial?
    requires off + 2 <= n <= |a| && FieldMoved(SumNone, GetLe16(a, off), v, delta, mangled)
    ensures |b| == |a| && b[..n] == Splice(a[..n], off, Le16(v))
  {
    FieldMovedUnique(mode, GetLe16(a, off), GetLe16(b, off), v, delta, mangled);
  }

  // ---- the two families around a whole datagram

  /** A datagram whose checksum field was moved by the difference of the pseudo-headers verifies
      under the one exactly when the original did under the other. */
  lemma DatagramVerdict(p: bytes, q: bytes, dgram: bytes, off: nat, v: u16, delta: int, mangled: bool)
    requires Le(p) > 0 && Le(q) > 0 && Le(q) - Le(p) == delta && off % 2 == 0 && off + 2 <= |dgram|
    requires FieldMoved(SumNone, GetLe16(dgram, off), v, delta, mangled)
    ensures Verifies(q, Splice(dgram, off, Le16(v))) <==> Verifies(p, dgram)
  {
    var n := |dgram|;
    var out := Splice(dgram, off, Le16(v));
    assert GetLe16(out, off) == v;
    assert dgram[..n] == dgram && out[..n] == out;
    PatchVerdict(SumNone, dgram, out, off, delta, mangled, n, p, q);
  }

  // ---- egress

  /** The fragment an IPv4 frame carries. */
  function View4(f: bytes): Frag {
    if Has4(f) && 14 + Ihl(f) <= |f| && Ihl(f) <= TotLen(f) && L4Len(f) <= |Rest4(f)|
    then Frag(Off4(f), More4(f), Rest4(f)[..L4Len(f)])
    else Frag(0, false, [])
  }

  /** The fragment an IPv6 frame carries. */
  function View6(f: bytes): Frag {
    if |f| >= 62 && 0 <= L4Len6(f) <= |Rest6(f)|
    then Frag(Off6(f), More6(f), Rest6(f)[..L4Len6(f)])
    else Frag(0, false, [])
  }

  function Views4(fs: seq<bytes>): seq<Frag> {
    seq(|fs|, i requires 0 <= i < |fs| => View4(fs[i]))
  }

  function Views6(fs: seq<bytes>): seq<Frag> {
    seq(|fs|, i requires 0 <= i < |fs| => View6(fs[i]))
  }

  /** `f` is an IPv4 fragment of a TCP or UDP datagram to `dst` with checksum field `field`, and
      `g` its translation. Only the fragment that starts the datagram holds the field. */
  ghost predicate EgressPair(cfg: Config, mode: Mode, dst: Addr4, proto: byte, id: u16, field: u16, f: bytes, g: bytes) {
    && Rel(cfg, mode, f, g) && IsFrag4(f) && L4Len(f) <= |Rest4(f)|
    && Dst4(f) == dst && Proto4(f) == proto && Id4(f) == id
    && (Off4(f) == 0 ==> FieldOffset(proto) + 2 <= L4Len(f) && GetLe16(Rest4(f), FieldOffset(proto)) == field)
  }

  lemma EgressFragment(cfg: Config, mode: Mode, dst: Addr4, proto: byte, id: u16, field: u16, v: u16, f: bytes, g: bytes)
    requires EgressPair(cfg, mode, dst, proto, id, field, f, g) && !mode.SumPartial?
    requires proto == TCP || (proto == UDP && field != 0)
    requires FieldMoved(SumNone, field, v, EgressDelta(cfg, dst), proto == UDP)
    ensures |g| >= 62 && IsFrag6(g) && Upper6(g) == proto && Id6(g) == id
    ensures Src6(g) == cfg.pod6 && Dst6(g) == Mapped(cfg, dst)
    ensures PatchedFrag(View4(f), View6(g), FieldOffset(proto), v)
  {
    EgressHeader(cfg, mode, f, g);
    assert Rest6(g) == Out6(f, g);
    if Off4(f) == 0 {
      PatchedWindow(mode, Rest4(f), Rest6(g), FieldOffset(proto), L4Len(f), AddrDelta(cfg, f), proto == UDP, v);
    }
  }

  /** Both reassemblies fail, or both succeed and differ only in the field, which goes from
      `field` to `v`. */
  predicate SameDatagram(before: Option<bytes>, after: Option<bytes>, off: nat, field: u16, v: u16) {
    match before
    case None => after == None
    case Some(d) => off + 2 <= |d| && GetLe16(d, off) == field && after == Some(Splice(d, off, Le16(v)))
  }

  lemma ReassemblesTheSame(xs: seq<Frag>, ys: seq<Frag>, off: nat, field: u16, v: u16)
    requires Patched(xs, ys, off, v)
    requires forall i :: 0 <= i < |xs| ==> HoldsField(xs[i], off, field)
    ensures SameDatagram(Reassemble(xs, 0), Reassemble(ys, 0), off, field, v)
  {
    ReassembleCommutes(xs, ys, off, v);
    ReassembledField(xs, off, field);
  }

  lemma ReassembledVerdict(p: bytes, q: bytes, d: bytes, e: bytes, off: nat, field: u16, v: u16, delta: int, mangled: bool)
    requires Le(p) > 0 && Le(q) > 0 && Le(q) - Le(p) == delta && off % 2 == 0
    requires FieldMoved(SumNone, field, v, delta, mangled) && SameDatagram(Some(d), Some(e), off, field, v)
    ensures Verifies(q, e) <==> Verifies(p, d)
  {
    DatagramVerdict(p, q, d, off, v, delta, mangled);
  }

  /** Egress commutes with reassembly: whatever fragments of one TCP or checksummed UDP datagram
      arrive, in whatever order, reassembling their translations gives the reassembled datagram
      with its checksum moved to `v`, or nothing when the originals give nothing. */
  lemma EgressCommutesWithReassembly(cfg: Config, mode: Mode, dst: Addr4, proto: byte, id: u16, field: u16, v: u16,
                                     fs: seq<bytes>, gs: seq<bytes>)
    requires |fs| == |gs| && !mode.SumPartial? && (proto == TCP || (proto == UDP && field != 0))
    requires FieldMoved(SumNone, field, v, EgressDelta(cfg, dst), proto == UDP)
    requires forall i :: 0 <= i < |fs| ==> EgressPair(cfg, mode, dst, proto, id, field, fs[i], gs[i])
    ensures SameDatagram(Reassemble(Views4(fs), 0), Reassemble(Views6(gs), 0), FieldOffset(proto), field, v)
  {
    EgressViews(cfg, mode, dst, proto, id, field, v, fs, gs);
    ReassemblesTheSame(Views4(fs), Views6(gs), FieldOffset(proto), field, v);
  }

  /** The result verifies under the IPv6 pseudo-header exactly when the original did under the
      IPv4 one. */
  lemma EgressReassembledVerdict(cfg: Config, dst: Addr4, proto: byte, field: u16, v: u16, d: bytes, e: bytes)
    requires proto != 0 && |d| <= 0xffff
    requires FieldMoved(SumNone, field, v, EgressDelta(cfg, dst), proto == UDP)
    requires SameDatagram(Some(d), Some(e), FieldOffset(proto), field, v)
    ensures Verifies(Pseudo6(cfg.pod6, Mapped(cfg, dst), proto, |e|), e)
            <==> Verifies(Pseudo4(cfg.pod4, dst, proto, |d|), d)
  {
    PseudoPair(cfg.pod4, dst, cfg.pod6, Mapped(cfg, dst), proto, |d|);
    ReassembledVerdict(Pseudo4(cfg.pod4, dst, proto, |d|), Pseudo6(cfg.pod6, Mapped(cfg, dst), proto, |d|), d, e,
                       FieldOffset(proto), field, v, EgressDelta(cfg, dst), proto == UDP);
  }

  lemma EgressViews(cfg: Config, mode: Mode, dst: Addr4, proto: byte, id: u16, field: u16, v: u16,
                    fs: seq<bytes>, gs: seq<bytes>)
    requires |fs| == |gs| && !mode.SumPartial? && (proto == TCP || (proto == UDP && field != 0))
    requires FieldMoved(SumNone, field, v, EgressDelta(cfg, dst), proto == UDP)
    requires forall i :: 0 <= i < |fs| ==> EgressPair(cfg, mode, dst, proto, id, field, fs[i], gs[i])
    ensures Patched(Views4(fs), Views6(gs), FieldOffset(proto), v)
    ensures forall i :: 0 <= i < |Views4(fs)| ==> HoldsField(Views4(fs)[i], FieldOffset(proto), field)
  {
    forall i | 0 <= i < |fs|
      ensures PatchedFrag(View4(fs[i]), View6(gs[i]), FieldOffset(proto), v)
      ensures HoldsField(View4(fs[i]), FieldOffset(proto), field)
    {
      assert EgressPair(cfg, mode, dst, proto, id, field, fs[i], gs[i]);
      EgressFragment(cfg, mode, dst, proto, id, field, v, fs[i], gs[i]);
      View4HoldsField(fs[i], FieldOffset(proto), field);
    }
  }

  predicate HoldsField(x: Frag, off: nat, field: u16) {
    x.off == 0 ==> off + 2 <= |x.payload| && GetLe16(x.payload, off) == field
  }

  lemma View4HoldsField(f: bytes, off: nat, field: u16)
    requires Has4(f) && 14 + Ihl(f) <= |f| && Ihl(f) <= TotLen(f) && L4Len(f) <= |Rest4(f)|
    requires Off4(f) == 0 ==> off + 2 <= L4Len(f) && GetLe16(Rest4(f), off) == field
    ensures HoldsField(View4(f), off, field)
  {
  }

  lemma {:induction false} FindHoldsField(xs: seq<Frag>, at: nat, off: nat, field: u16)
    requires forall i :: 0 <= i < |xs| ==> HoldsField(xs[i], off, field)
    ensures Find(xs, at).Some? ==> HoldsField(Find(xs, at).value, off, field)
  {
    if xs != [] && xs[0].off != at {
      forall i | 0 <= i < |xs[1..]|
        ensures HoldsField(xs[1..][i], off, field)
      {
        assert HoldsField(xs[i + 1], off, field);
      }
      FindHoldsField(xs[1..], at, off, field);
    }
  }

  lemma ReassembledField(xs: seq<Frag>, off: nat, field: u16)
    requires forall i :: 0 <= i < |xs| ==> HoldsField(xs[i], off, field)
    ensures Reassemble(xs, 0).Some? ==>
              off + 2 <= |Reassemble(xs, 0).value| && GetLe16(Reassemble(xs, 0).value, off) == field
  {
    FindHoldsField(xs, 0, off, field);
  }

  // ---- ingress

  ghost predicate IngressPair(cfg: Config, mode: Mode, src: Addr4, proto: byte, id: u32, field: u16, f: bytes, g: bytes, exact: bool) {
    && Rel6(cfg, mode, f, g, exact) && IsFrag6(f) && L4Len6(f) <= |Rest6(f)|
    && Src6(f) == Mapped(cfg, src) && Upper6(f) == proto && Id6(f) == id
    && (Off6(f) == 0 ==> FieldOffset(proto) + 2 <= L4Len6(f) && GetLe16(Rest6(f), FieldOffset(proto)) == field)
    && L4Len6(f) <= 65515
  }

  lemma IngressFragment(cfg: Config, mode: Mode, src: Addr4, proto: byte, id: u32, field: u16, v: u16,
                        f: bytes, g: bytes, exact: bool)
    requires IngressPair(cfg, mode, src, proto, id, field, f, g, exact) && !mode.SumPartial?
    requires proto == TCP || proto == UDP
    requires FieldMoved(SumNone, field, v, IngressDelta(cfg, src), proto == UDP)
    ensures Has4(g) && Src4(g) == src && Dst4(g) == cfg.pod4 && Proto4(g) == proto && Id4(g) == id % 0x1_0000
    ensures PatchedFrag(View6(f), View4(g), FieldOffset(proto), v)
  {
    IngressHeader(cfg, mode, f, g, exact);
    L4Rel6Length(cfg, mode, f, Rest6(f), g[34..], exact);
    assert Mapped(cfg, src)[..12] == cfg.prefix[..12] && Mapped(cfg, src)[12..] == src;
    IngressFragView(f, g);
    if Off6(f) == 0 {
      PatchedWindow(mode, Rest6(f), g[34..], FieldOffset(proto), L4Len6(f), AddrDelta6(cfg, f), proto == UDP, v);
    }
  }

  lemma IngressFragView(f: bytes, g: bytes)
    requires |f| >= 62 && IsFrag6(f) && Has4(g) && FragWord(g) == Frag4Word(f)
    requires Ihl(g) == 20 && 0 <= L4Len6(f) <= 65515 && TotLen(g) == (L4Len6(f) + 20) % 0x1_0000
    requires L4Len6(f) <= |g| - 34
    ensures View4(g) == Frag(Off6(f), More6(f), g[34..][..L4Len6(f)])
  {
    FragWordSplits(Off6(f), More6(f), FragWord(g));
    assert L4Len(g) == L4Len6(f);
    assert Rest4(g) == g[34..];
  }

  lemma FragWordSplits(off: nat, more: bool, w: u16)
    requires off < 0x2000 && w == off + (if more then IP_MF else 0)
    ensures w % 0x2000 == off && ((w / 0x2000) % 2 == 1 <==> more)
  {
  }

  function IngressDelta(cfg: Config, src: Addr4): int {
    Le(src + cfg.pod4) - Le(Mapped(cfg, src) + cfg.pod6)
  }

  /** Ingress commutes with reassembly in the same way. */
  lemma IngressCommutesWithReassembly(cfg: Config, mode: Mode, src: Addr4, proto: byte, id: u32, field: u16, v: u16,
                                      fs: seq<bytes>, gs: seq<bytes>, exact: bool)
    requires |fs| == |gs| && !mode.SumPartial? && (proto == TCP || proto == UDP)
    requires FieldMoved(SumNone, field, v, IngressDelta(cfg, src), proto == UDP)
    requires forall i :: 0 <= i < |fs| ==> IngressPair(cfg, mode, src, proto, id, field, fs[i], gs[i], exact)
    ensures SameDatagram(Reassemble(Views6(fs), 0), Reassemble(Views4(gs), 0), FieldOffset(proto), field, v)
  {
    IngressViews(cfg, mode, src, proto, id, field, v, fs, gs, exact);
    ReassemblesTheSame(Views6(fs), Views4(gs), FieldOffset(proto), field, v);
  }

  lemma IngressReassembledVerdict(cfg: Config, src: Addr4, proto: byte, field: u16, v: u16, d: bytes, e: bytes)
    requires proto != 0 && |d| <= 0xffff
    requires FieldMoved(SumNone, field, v, IngressDelta(cfg, src), proto == UDP)
    requires SameDatagram(Some(d), Some(e), FieldOffset(proto), field, v)
    ensures Verifies(Pseudo4(src, cfg.pod4, proto, |e|), e)
            <==> Verifies(Pseudo6(Mapped(cfg, src), cfg.pod6, proto, |d|), d)
  {
    PseudoPair(src, cfg.pod4, Mapped(cfg, src), cfg.pod6, proto, |d|);
    ReassembledVerdict(Pseudo6(Mapped(cfg, src), cfg.pod6, proto, |d|), Pseudo4(src, cfg.pod4, proto, |d|), d, e,
                       FieldOffset(proto), field, v, IngressDelta(cfg, src), proto == UDP);
  }

  lemma IngressViews(cfg: Config, mode: Mode, src: Addr4, proto: byte, id: u32, field: u16, v: u16,
                     fs: seq<bytes>, gs: seq<bytes>, exact: bool)
    requires |fs| == |gs| && !mode.SumPartial? && (proto == TCP || proto == UDP)
    requires FieldMoved(SumNone, field, v, IngressDelta(cfg, src), proto == UDP)
    requires forall i :: 0 <= i < |fs| ==> IngressPair(cfg, mode, src, proto, id, field, fs[i], gs[i], exact)
    ensures Patched(Views6(fs), Views4(gs), FieldOffset(proto), v)
    ensures forall i :: 0 <= i < |Views6(fs)| ==> HoldsField(Views6(fs)[i], FieldOffset(proto), field)
  {
    forall i | 0 <= i < |fs|
      ensures PatchedFrag(View6(fs[i]), View4(gs[i]), FieldOffset(proto), v)
      ensures HoldsField(View6(fs[i]), FieldOffset(proto), field)
    {
      assert IngressPair(cfg, mode, src, proto, id, field, fs[i], gs[i], exact);
      IngressFragment(cfg, mode, src, proto, id, field, v, fs[i], gs[i], exact);
      View6HoldsField(fs[i], FieldOffset(proto), field);
    }
  }

  lemma View6HoldsField(f: bytes, off: nat, field: u16)
    requires |f| >= 62 && 0 <= L4Len6(f) <= |Rest6(f)|
    requires Off6(f) == 0 ==> off + 2 <= L4Len6(f) && GetLe16(Rest6(f), off) == field
    ensures HoldsField(View6(f), off, field)
  {
  }

  // ---- every way of cutting a datagram

  /** Fragments of one datagram, cut anywhere and received in any order, reassemble to it before
      translation and, after it, to the same datagram with its field at `v`. */
  lemma SplitAndPatched(xs: seq<Frag>, after: Option<bytes>, d: bytes, sizes: seq<nat>, off: nat, field: u16, v: u16)
    requires Cuts(d, sizes) && Units(sizes) < 0x2000
    requires forall x :: x in xs <==> x in Split(d, sizes, 0)
    requires SameDatagram(Reassemble(xs, 0), after, off, field, v)
    ensures SameDatagram(Some(d), after, off, field, v)
  {
    AnyOrderDelivers(xs, d, sizes, 0);
    SplitReassembles(xs, d, sizes, 0);
  }

  /** Cut a TCP or checksummed UDP datagram anywhere, translate each fragment on its own, reassemble
      in any order: the datagram is there, only its checksum field may differ, and it verifies over
      the IPv6 pseudo-header exactly when it did over the IPv4 one. */
  lemma EgressSplitSurvives(cfg: Config, mode: Mode, dst: Addr4, proto: byte, id: u16, d: bytes, sizes: seq<nat>,
                            fs: seq<bytes>, gs: seq<bytes>) returns (e: bytes)
    requires |fs| == |gs| && !mode.SumPartial? && Cuts(d, sizes) && Units(sizes) < 0x2000
    requires FieldOffset(proto) + 2 <= |d| <= 0xffff && (proto == TCP || (proto == UDP && GetLe16(d, 6) != 0))
    requires forall x :: x in Views4(fs) <==> x in Split(d, sizes, 0)
    requires forall i :: 0 <= i < |fs| ==>
                           EgressPair(cfg, mode, dst, proto, id, GetLe16(d, FieldOffset(proto)), fs[i], gs[i])
    ensures Reassemble(Views6(gs), 0) == Some(e) && |e| == |d|
    ensures e == Splice(d, FieldOffset(proto), e[FieldOffset(proto)..FieldOffset(proto) + 2])
    ensures Verifies(Pseudo6(cfg.pod6, Mapped(cfg, dst), proto, |e|), e)
            <==> Verifies(Pseudo4(cfg.pod4, dst, proto, |d|), d)
  {
    var field := GetLe16(d, FieldOffset(proto));
    var v := MovedField(field, EgressDelta(cfg, dst), proto == UDP);
    e := Splice(d, FieldOffset(proto), Le16(v));
    EgressCommutesWithReassembly(cfg, mode, dst, proto, id, field, v, fs, gs);
    SplitAndPatched(Views4(fs), Reassemble(Views6(gs), 0), d, sizes, FieldOffset(proto), field, v);
    EgressReassembledVerdict(cfg, dst, proto, field, v, d, e);
  }

  /** The same on the way in. */
  lemma IngressSplitSurvives(cfg: Config, mode: Mode, src: Addr4, proto: byte, id: u32, d: bytes, sizes: seq<nat>,
                             fs: seq<bytes>, gs: seq<bytes>, exact: bool) returns (e: bytes)
    requires |fs| == |gs| && !mode.SumPartial? && Cuts(d, sizes) && Units(sizes) < 0x2000
    requires FieldOffset(proto) + 2 <= |d| <= 0xffff && (proto == TCP || proto == UDP)
    requires forall x :: x in Views6(fs) <==> x in Split(d, sizes, 0)
    requires forall i :: 0 <= i < |fs| ==>
                           IngressPair(cfg, mode, src, proto, id, GetLe16(d, FieldOffset(proto)), fs[i], gs[i], exact)
    ensures Reassemble(Views4(gs), 0) == Some(e) && |e| == |d|
    ensures e == Splice(d, FieldOffset(proto), e[FieldOffset(proto)..FieldOffset(proto) + 2])
    ensures Verifies(Pseudo4(src, cfg.pod4, proto, |e|), e)
            <==> Verifies(Pseudo6(Mapped(cfg, src), cfg.pod6, proto, |d|), d)
  {
    var field := GetLe16(d, FieldOffset(proto));
    var v := MovedField(field, IngressDelta(cfg, src), proto == UDP);
    e := Splice(d, FieldOffset(proto), Le16(v));
    IngressCommutesWithReassembly(cfg, mode, src, proto, id, field, v, fs, gs, exact);
    SplitAndPatched(Views6(fs), Reassemble(Views4(gs), 0), d, sizes, FieldOffset(proto), field, v);
    IngressReassembledVerdict(cfg, src, proto, field, v, d, e);
  }
}
