/** The per-CPU counter array and what one packet may do to it. */
module Counters {
  import opened Kernel

  type u64 = x: int | 0 <= x < 0x1_0000_0000_0000_0000

  datatype Key =
    | EgressTranslated
    | IngressTranslated
    | EgressTruncated
    | EgressBadSrc
    | EgressMcast
    | EgressSrcRoute
    | EgressFragNoCsum
    | EgressIcmpUnsupported
    | EgressTooBig
    | EgressHelper
    | IngressTruncated
    | IngressExtHdr
    | IngressUdpZeroCsum
    | IngressFragIcmp
    | IngressIcmpUnsupported
    | IngressIcmpInner
    | IngressHelper

  const CNT_MAX: nat := 17

  /** Slot of a counter in the map. */
  function Slot(k: Key): (i: nat)
    ensures i < CNT_MAX
  {
    match k
    case EgressTranslated => 0
    case IngressTranslated => 1
    case EgressTruncated => 2
    case EgressBadSrc => 3
    case EgressMcast => 4
    case EgressSrcRoute => 5
    case EgressFragNoCsum => 6
    case EgressIcmpUnsupported => 7
    case EgressTooBig => 8
    case EgressHelper => 9
    case IngressTruncated => 10
    case IngressExtHdr => 11
    case IngressUdpZeroCsum => 12
    case IngressFragIcmp => 13
    case IngressIcmpUnsupported => 14
    case IngressIcmpInner => 15
    case IngressHelper => 16
  }

  /** What became of a packet. */
  datatype Outcome = Pass | Translate | Drop(key: Key)

  /** The counters a dropped packet of each direction may bump. */
  predicate IsEgressDrop(k: Key) {
    || k.EgressTruncated? || k.EgressBadSrc? || k.EgressMcast? || k.EgressSrcRoute?
    || k.EgressFragNoCsum? || k.EgressIcmpUnsupported? || k.EgressTooBig? || k.EgressHelper?
  }

  predicate IsIngressDrop(k: Key) {
    || k.IngressTruncated? || k.IngressExtHdr? || k.IngressUdpZeroCsum? || k.IngressFragIcmp?
    || k.IngressIcmpUnsupported? || k.IngressIcmpInner? || k.IngressHelper?
  }

  type Cells = c: seq<u64> | |c| == CNT_MAX
    witness [0, 0, 0, 0, 0, 0, 0, 0, 0, 0, 0, 0, 0, 0, 0, 0, 0]

  function Next(v: u64): u64 {
    if v == 0xffff_ffff_ffff_ffff then 0 else v + 1
  }

  function Bump(c: Cells, k: Key): Cells {
    c[Slot(k) := Next(c[Slot(k)])]
  }

  /** The counters after a packet of the given direction met the given outcome. */
  function After(c: Cells, translated: Key, o: Outcome): Cells {
    match o
    case Pass => c
    case Translate => Bump(c, translated)
    case Drop(key) => Bump(c, key)
  }

  function ActionOf(o: Outcome): Action {
    if o.Drop? then ActShot else ActOk
  }

  class CounterMap {
    var cells: Cells

    method Count(k: Key)
      modifies this
      ensures cells == Bump(old(cells), k)
      ensures forall j: Key :: cells[Slot(j)] ==
                if j == k then (old(cells)[Slot(j)] as int + 1) % 0x1_0000_0000_0000_0000 else old(cells)[Slot(j)]
    {
      forall j: Key
        ensures Slot(j) == Slot(k) ==> j == k
      {
        SlotsAreNamed(j, k);
      }
      cells := cells[Slot(k) := Next(cells[Slot(k)])];
    }

    method DropPacket(k: Key) returns (act: Action)
      modifies this
      ensures cells == Bump(old(cells), k) && act == ActShot
      ensures forall j: Key :: cells[Slot(j)] ==
                if j == k then (old(cells)[Slot(j)] as int + 1) % 0x1_0000_0000_0000_0000 else old(cells)[Slot(j)]
    {
      Count(k);
      act := ActShot;
    }
  }

  // ---- accounting over packet sequences

  function Total(c: seq<u64>): nat {
    if c == [] then 0 else c[0] as int + Total(c[1..])
  }

  /** One packet: which direction's "translated" counter applies, and its fate. */
  datatype Packet = Packet(translated: Key, fate: Outcome)

  function AfterAll(c: Cells, ps: seq<Packet>): Cells
    decreases |ps|
  {
    if ps == [] then c else AfterAll(After(c, ps[0].translated, ps[0].fate), ps[1..])
  }

  function Handled(ps: seq<Packet>): nat {
    if ps == [] then 0 else (if ps[0].fate.Pass? then 0 else 1) + Handled(ps[1..])
  }

  lemma {:induction false} TotalUpdate(c: seq<u64>, i: nat, v: u64)
    requires i < |c|
    ensures Total(c[i := v]) == Total(c) - c[i] as int + v as int
  {
    if i == 0 {
      assert c[0 := v][1..] == c[1..];
    } else {
      assert c[i := v][1..] == c[1..][i - 1 := v];
      TotalUpdate(c[1..], i - 1, v);
    }
  }

  ghost predicate SameMod64(a: int, b: int) {
    exists k: int :: Wraps(a, b, k)
  }

  ghost predicate Wraps(a: int, b: int, k: int) {
    a == b + 0x1_0000_0000_0000_0000 * k
  }

  lemma BumpAddsOne(c: Cells, k: Key)
    ensures Wraps(Total(Bump(c, k)), Total(c) + 1, if c[Slot(k)] == 0xffff_ffff_ffff_ffff then -1 else 0)
  {
    TotalUpdate(c, Slot(k), Next(c[Slot(k)]));
  }

  /** Over any packet sequence the counters grow, together, by the number of packets that were
      not passed through (modulo the width of a counter). */
  lemma {:induction false} CountersSumToHandled(c: Cells, ps: seq<Packet>)
    ensures SameMod64(Total(AfterAll(c, ps)), Total(c) + Handled(ps))
    decreases |ps|
  {
    if ps == [] {
      assert Wraps(Total(c), Total(c), 0);
    } else {
      var p := ps[0];
      var c1 := After(c, p.translated, p.fate);
      var h := if p.fate.Pass? then 0 else 1;
      var k := 0;
      if !p.fate.Pass? {
        var key := if p.fate.Translate? then p.translated else p.fate.key;
        BumpAddsOne(c, key);
        k := if c[Slot(key)] == 0xffff_ffff_ffff_ffff then -1 else 0;
      }
      assert Wraps(Total(c1), Total(c) + h, k);
      CountersSumToHandled(c1, ps[1..]);
      var m :| Wraps(Total(AfterAll(c1, ps[1..])), Total(c1) + Handled(ps[1..]), m);
      assert Wraps(Total(AfterAll(c, ps)), Total(c) + Handled(ps), m + k);
    }
  }

  // ---- one counter

  /** What `ReadCounters` prints for each slot. */
  const COUNTER_NAMES: seq<string> :=
    [ "egress_translated", "ingress_translated", "egress_drop_truncated", "egress_drop_bad_src",
      "egress_drop_mcast", "egress_drop_srcroute", "egress_drop_frag_no_csum",
      "egress_drop_icmp_unsupported", "egress_drop_too_big", "egress_drop_helper",
      "ingress_drop_truncated", "ingress_drop_exthdr", "ingress_drop_udp_zero_csum",
      "ingress_drop_frag_icmp", "ingress_drop_icmp_unsupported", "ingress_drop_icmp_inner",
      "ingress_drop_helper" ]

  /** A counter's name for the person who reads it. */
  function Name(k: Key): string {
    match k
    case EgressTranslated => "egress_translated"
    case EgressTruncated => "egress_drop_truncated"
    case EgressBadSrc => "egress_drop_bad_src"
    case EgressMcast => "egress_drop_mcast"
    case EgressSrcRoute => "egress_drop_srcroute"
    case EgressFragNoCsum => "egress_drop_frag_no_csum"
    case EgressIcmpUnsupported => "egress_drop_icmp_unsupported"
    case EgressTooBig => "egress_drop_too_big"
    case EgressHelper => "egress_drop_helper"
    case IngressTranslated => "ingress_translated"
    case IngressTruncated => "ingress_drop_truncated"
    case IngressExtHdr => "ingress_drop_exthdr"
    case IngressUdpZeroCsum => "ingress_drop_udp_zero_csum"
    case IngressFragIcmp => "ingress_drop_frag_icmp"
    case IngressIcmpUnsupported => "ingress_drop_icmp_unsupported"
    case IngressIcmpInner => "ingress_drop_icmp_inner"
    case IngressHelper => "ingress_drop_helper"
  }

  /** No two counters share a slot, and the reader, which knows the slots by
      position only, gives each counter its own name. */
  lemma SlotsAreNamed(j: Key, k: Key)
    ensures Slot(j) == Slot(k) ==> j == k
    ensures |COUNTER_NAMES| == CNT_MAX && COUNTER_NAMES[Slot(k)] == Name(k)
  {
  }

  /** The packet counts under `k`. */
  predicate Hits(p: Packet, k: Key) {
    p.fate == Drop(k) || (p.fate.Translate? && p.translated == k)
  }

  function Hitting(ps: seq<Packet>, k: Key): nat {
    if ps == [] then 0 else (if Hits(ps[0], k) then 1 else 0) + Hitting(ps[1..], k)
  }

  lemma OneHit(c: Cells, p: Packet, k: Key)
    ensures After(c, p.translated, p.fate)[Slot(k)] == if Hits(p, k) then Next(c[Slot(k)]) else c[Slot(k)]
  {
    if !p.fate.Pass? {
      SlotsAreNamed(if p.fate.Translate? then p.translated else p.fate.key, k);
    }
  }

  /** Over any packet sequence each counter grows by the packets that count under it and by
      nothing else, modulo its width. */
  lemma {:induction false} EveryCounterCounts(c: Cells, ps: seq<Packet>, k: Key)
    ensures AfterAll(c, ps)[Slot(k)] == (c[Slot(k)] as int + Hitting(ps, k)) % 0x1_0000_0000_0000_0000
    decreases |ps|
  {
    if ps != [] {
      var p := ps[0];
      OneHit(c, p, k);
      EveryCounterCounts(After(c, p.translated, p.fate), ps[1..], k);
      if Hits(p, k) {
        Carry(c[Slot(k)], Hitting(ps[1..], k));
      }
    }
  }

  lemma Carry(v: u64, n: nat)
    ensures (Next(v) as int + n) % 0x1_0000_0000_0000_0000 == (v as int + (1 + n)) % 0x1_0000_0000_0000_0000
  {
  }

  /** Every counter went from `c` to `d` by the packets that count under it. */
  ghost predicate EachCounted(c: Cells, d: Cells, ps: seq<Packet>) {
    forall k: Key :: d[Slot(k)] == (c[Slot(k)] as int + Hitting(ps, k)) % 0x1_0000_0000_0000_0000
  }

  lemma AllCountersCount(c: Cells, ps: seq<Packet>)
    ensures EachCounted(c, AfterAll(c, ps), ps)
  {
    forall k: Key
      ensures AfterAll(c, ps)[Slot(k)] == (c[Slot(k)] as int + Hitting(ps, k)) % 0x1_0000_0000_0000_0000
    {
      EveryCounterCounts(c, ps, k);
    }
  }
}
