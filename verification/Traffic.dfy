/** Both programs over any sequence of packets, on one counter map. */
module Traffic {
  import opened Bytes
  import opened Headers
  import opened Kernel
  import opened Counters
  import opened EgressSpec
  import opened IngressSpec
  import Egress
  import Ingress

  datatype Direction = Leaving | Arriving

  /** A packet before and after its program ran. `due` says that its MAC header was readable and
      named the program's protocol, as the kernel's own record did; `refused` that a helper
      refused on the way. */
  datatype Entry = Entry(dir: Direction, mode: Mode, before: bytes, due: bool,
                         after: bytes, refused: bool, act: Action, fate: Outcome)

  function Translated(dir: Direction): Key {
    if dir.Leaving? then EgressTranslated else IngressTranslated
  }

  /** What a fate means for the bytes of a packet, and which counters it may touch. */
  ghost predicate Fair(cfg: Config, e: Entry) {
    e.act == ActionOf(e.fate) &&
    (e.due && !e.refused ==> e.fate == if e.dir.Leaving? then Decision(cfg, e.before) else Decision6(cfg, e.before)) &&
    match e.fate
    case Pass => e.after == e.before
    case Translate =>
      if e.dir.Leaving? then Rel(cfg, e.mode, e.before, e.after)
      else Rel6(cfg, e.mode, e.before, e.after, true) || Rel6(cfg, e.mode, e.before, e.after, false)
    case Drop(key) => if e.dir.Leaving? then IsEgressDrop(key) else IsIngressDrop(key)
  }

  ghost predicate AllFair(cfg: Config, log: seq<Entry>) {
    forall i :: 0 <= i < |log| ==> Fair(cfg, log[i])
  }

  function Packets(log: seq<Entry>): (ps: seq<Packet>)
    ensures |ps| == |log|
  {
    seq(|log|, i requires 0 <= i < |log| => Packet(Translated(log[i].dir), log[i].fate))
  }

  lemma {:induction false} AfterAllSnoc(c: Cells, ps: seq<Packet>, p: Packet)
    ensures AfterAll(c, ps + [p]) == After(AfterAll(c, ps), p.translated, p.fate)
    decreases |ps|
  {
    if ps == [] {
      assert ps + [p] == [p] && [p][1..] == [];
    } else {
      assert (ps + [p])[1..] == ps[1..] + [p];
      AfterAllSnoc(After(c, ps[0].translated, ps[0].fate), ps[1..], p);
    }
  }

  /** The log tells what happened to the packet. */
  twostate predicate Done(skb: Skb, dir: Direction, e: Entry)
    reads skb
  {
    && e.dir == dir && e.mode == old(skb.mode) && e.before == old(skb.data) && e.after == skb.data
    && e.refused == skb.faulted && e.due == old(Due(skb, dir))
  }

  ghost predicate Due(skb: Skb, dir: Direction)
    reads skb
  {
    && 14 <= skb.linear <= |skb.data|
    && if dir.Leaving? then EtherType(skb.data) == ETHER_IP4 && skb.l3.Ip4?
       else EtherType(skb.data) == ETHER_IP6 && skb.l3.Ip6?
  }

  twostate predicate Waiting(skb: Skb)
    reads skb
  {
    && skb.Valid() && !skb.faulted && skb.mode == old(skb.mode) && skb.data == old(skb.data)
    && skb.linear == old(skb.linear) && skb.l3 == old(skb.l3)
  }

  /** All entries that can arise are in `ok`. */
  ghost predicate Covers(cfg: Config, ok: iset<Entry>) {
    forall e: Entry {:trigger Fair(cfg, e)} :: Fair(cfg, e) ==> e in ok
  }

  ghost function FairEntries(cfg: Config): iset<Entry> {
    iset e: Entry | Fair(cfg, e)
  }

  lemma FairCovers(cfg: Config)
    ensures Covers(cfg, FairEntries(cfg))
  {
  }

  lemma FairLog(cfg: Config, log: seq<Entry>)
    requires forall i :: 0 <= i < |log| ==> log[i] in FairEntries(cfg)
    ensures AllFair(cfg, log)
  {
  }

  method Handle(cfg: Config, skb: Skb, dir: Direction, cnt: CounterMap, ghost ok: iset<Entry>)
    returns (act: Action, ghost e: Entry)
    requires skb.Valid() && !skb.faulted && Covers(cfg, ok)
    modifies skb, cnt
    ensures Done(skb, dir, e) && act == e.act && e in ok
    ensures cnt.cells == After(old(cnt.cells), Translated(dir), e.fate)
  {
    ghost var mode, f, due, fate := skb.mode, skb.data, Due(skb, dir), Pass;
    if dir.Leaving? {
      act, fate := Egress.ClatEgress(cfg, skb, cnt);
    } else {
      act, fate := Ingress.ClatIngress(cfg, skb, cnt);
    }
    e := Entry(dir, mode, f, due, skb.data, skb.faulted, act, fate);
    assert Fair(cfg, e);
  }

  /** Packets in any order and direction, helpers refusing as they like. Every packet passed is
      untouched, every packet accepted otherwise is completely translated, every packet no helper
      refused meets the verdict it is owed, and each counter grows by the packets that met its
      verdict; together they grow by the packets that were not passed through. */
  method Run(cfg: Config, skbs: seq<Skb>, dirs: seq<Direction>, cnt: CounterMap) returns (ghost log: seq<Entry>)
    requires |dirs| == |skbs| && AllNew(skbs)
    modifies skbs, cnt
    ensures |log| == |skbs| && forall i :: 0 <= i < |skbs| ==> Done(skbs[i], dirs[i], log[i])
    ensures AllFair(cfg, log)
    ensures cnt.cells == AfterAll(old(cnt.cells), Packets(log))
    ensures SameMod64(Total(cnt.cells), Total(old(cnt.cells)) + Handled(Packets(log)))
    ensures EachCounted(old(cnt.cells), cnt.cells, Packets(log))
  {
    FairCovers(cfg);
    log := HandleAll(cfg, skbs, dirs, cnt, FairEntries(cfg));
    FairLog(cfg, log);
    CountersSumToHandled(old(cnt.cells), Packets(log));
    AllCountersCount(old(cnt.cells), Packets(log));
  }

  /** Distinct buffers no program has run on. */
  ghost predicate AllNew(skbs: seq<Skb>)
    reads skbs
  {
    && (forall i, j :: 0 <= i < j < |skbs| ==> skbs[i] != skbs[j])
    && (forall i :: 0 <= i < |skbs| ==> skbs[i].Valid() && !skbs[i].faulted)
  }

  /** What holds of every packet holds of all packets. */
  method HandleAll(cfg: Config, skbs: seq<Skb>, dirs: seq<Direction>, cnt: CounterMap, ghost ok: iset<Entry>)
    returns (ghost log: seq<Entry>)
    requires |dirs| == |skbs| && AllNew(skbs) && Covers(cfg, ok)
    modifies skbs, cnt
    ensures |log| == |skbs| && forall i :: 0 <= i < |skbs| ==> Done(skbs[i], dirs[i], log[i])
    ensures (forall i :: 0 <= i < |log| ==> log[i] in ok) && cnt.cells == AfterAll(old(cnt.cells), Packets(log))
  {
    log := [];
    for k := 0 to |skbs|
      invariant |log| == k
      invariant forall i :: k <= i < |skbs| ==> Waiting(skbs[i])
      invariant forall i :: 0 <= i < k ==> Done(skbs[i], dirs[i], log[i])
      invariant (forall i :: 0 <= i < k ==> log[i] in ok) && cnt.cells == AfterAll(old(cnt.cells), Packets(log))
    {
      var _, e := Handle(cfg, skbs[k], dirs[k], cnt, ok);
      Logged(old(cnt.cells), log, e);
      log := log + [e];
    }
  }

  lemma Logged(c: Cells, log: seq<Entry>, e: Entry)
    ensures AfterAll(c, Packets(log + [e])) == After(AfterAll(c, Packets(log)), Translated(e.dir), e.fate)
  {
    var p := Packet(Translated(e.dir), e.fate);
    assert Packets(log + [e]) == Packets(log) + [p];
    AfterAllSnoc(c, Packets(log), p);
  }
}
