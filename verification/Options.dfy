/** IPv4 options on egress: packets with a source route are dropped, the rest of the option list
    is stripped. */
module Options {
  import opened Bytes
  import opened Kernel

  const EOL: byte := 0
  const NOP: byte := 1
  const LSRR: byte := 131
  const SSRR: byte := 137

  datatype Step = Stop(refuse: bool) | Skip(n: nat)

  /** What the option at `i` of an area of `len` bytes at `off` asks for: refuse on a source
      route, a type without a length, a length below 2 or the end of the frame; stop at the end
      of the list; else step over it. */
  function OptionStep(d: bytes, off: nat, len: nat, i: nat): (s: Step)
    requires i < len
    ensures s.Skip? ==> s.n > 0
  {
    if off + i >= |d| then Stop(true)
    else
      var t := d[off + i];
      if t == EOL then Stop(false)
      else if t == NOP then Skip(1)
      else if t == LSRR || t == SSRR then Stop(true)
      else if i + 1 >= len || off + i + 1 >= |d| then Stop(true)
      else if d[off + i + 1] < 2 then Stop(true)
      else Skip(d[off + i + 1])
  }

  /** The walk over an option area, resumed at `i`. An option that claims to run past the area
      ends it. */
  predicate Walk(d: bytes, off: nat, len: nat, i: nat)
    decreases len - i
  {
    if i >= len then false
    else
      match OptionStep(d, off, len, i)
      case Stop(refuse) => refuse
      case Skip(n) => Walk(d, off, len, i + n)
  }

  lemma WalkUnfolds(d: bytes, off: nat, len: nat, i: nat)
    requires i < len
    ensures OptionStep(d, off, len, i).Stop? ==> Walk(d, off, len, i) == OptionStep(d, off, len, i).refuse
    ensures OptionStep(d, off, len, i).Skip? ==> Walk(d, off, len, i) == Walk(d, off, len, i + OptionStep(d, off, len, i).n)
  {
  }

  predicate LegalArea(len: nat) {
    4 <= len <= 40 && len % 4 == 0
  }

  /** `ip4_has_source_route`: the answer is the walk's; the bound of 40 rounds never decides it. */
  method HasSourceRoute(skb: Skb, off: nat, len: nat) returns (r: bool)
    requires skb.Valid()
    modifies skb`faulted
    ensures old(skb.faulted) ==> skb.faulted
    ensures !r ==> LegalArea(len) && !Walk(skb.data, off, len, 0) && skb.faulted == old(skb.faulted)
    ensures r ==> skb.faulted || !LegalArea(len) || Walk(skb.data, off, len, 0)
  {
    if len < 4 || len > 40 || len % 4 != 0 {
      return true;
    }
    var i: nat := 0;
    var k := 0;
    while k < 40
      invariant 0 <= k <= 40 && k <= i
      invariant skb.faulted == old(skb.faulted)
      invariant Walk(skb.data, off, len, 0) == Walk(skb.data, off, len, i)
    {
      if i >= len {
        break;
      }
      var ok, t := skb.LoadBytes(off + i, 1);
      if !ok {
        WalkUnfolds(skb.data, off, len, i);
        return true;
      }
      assert t[0] == skb.data[off + i];
      WalkUnfolds(skb.data, off, len, i);
      if t[0] == EOL {
        return false;
      }
      if t[0] == NOP {
        i := i + 1;
        k := k + 1;
        continue;
      }
      if t[0] == LSRR || t[0] == SSRR {
        return true;
      }
      if i + 1 >= len {
        return true;
      }
      var ok2, l := skb.LoadBytes(off + i + 1, 1);
      if !ok2 {
        return true;
      }
      assert l[0] == skb.data[off + i + 1];
      if l[0] < 2 {
        return true;
      }
      i := i + l[0];
      k := k + 1;
    }
    return false;
  }

  // ---- the walk against option lists

  /** An option as RFC 791 writes it: a lone no-op, or type, length and data. */
  datatype Opt = Nop | Tlv(kind: byte, data: bytes)

  predicate WellFormed(o: Opt) {
    o.Tlv? ==> o.kind >= 2 && |o.data| <= 253
  }

  function EncodeOpt(o: Opt): (r: bytes)
    requires WellFormed(o)
    ensures |r| > 0
  {
    match o
    case Nop => [NOP]
    case Tlv(kind, data) => [kind, |data| + 2] + data
  }

  datatype OptList = Done | More(head: Opt, tail: OptList)

  predicate AllWellFormed(os: OptList) {
    os.More? ==> WellFormed(os.head) && AllWellFormed(os.tail)
  }

  function Encode(os: OptList): bytes
    requires AllWellFormed(os)
  {
    if os.Done? then [] else EncodeOpt(os.head) + Encode(os.tail)
  }

  predicate IsSourceRoute(o: Opt) {
    o.Tlv? && o.kind in {LSRR, SSRR}
  }

  predicate HasRoute(os: OptList) {
    os.More? && (IsSourceRoute(os.head) || HasRoute(os.tail))
  }

  /** The walk over the bytes of an area that lies wholly inside the frame. */
  predicate AreaWalk(s: bytes) {
    if s == [] then false
    else
      match OptionStep(s, 0, |s|, 0)
      case Stop(refuse) => refuse
      case Skip(n) => n < |s| && AreaWalk(s[n..])
  }

  /** Offsets and frame ends do not matter to an area inside the frame. */
  lemma {:induction false} WalkIsAreaWalk(d: bytes, off: nat, len: nat, i: nat)
    requires i <= len && off + len <= |d|
    ensures Walk(d, off, len, i) == AreaWalk(d[off + i..off + len])
    decreases len - i
  {
    if i < len {
      SameStep(d, off, len, i);
      var n := OptionStep(d, off, len, i);
      if n.Skip? && i + n.n <= len {
        assert d[off + i..off + len][n.n..] == d[off + (i + n.n)..off + len];
        WalkIsAreaWalk(d, off, len, i + n.n);
      }
    }
  }

  lemma SameStep(d: bytes, off: nat, len: nat, i: nat)
    requires i < len && off + len <= |d|
    ensures var s := d[off + i..off + len];
            OptionStep(d, off, len, i) == OptionStep(s, 0, |s|, 0)
  {
    var s := d[off + i..off + len];
    assert s[0] == d[off + i];
    assert |s| > 1 ==> s[1] == d[off + i + 1];
  }

  lemma StepReadsOption(o: Opt, rest: bytes)
    requires WellFormed(o)
    ensures var s := EncodeOpt(o) + rest;
            OptionStep(s, 0, |s|, 0) == if IsSourceRoute(o) then Stop(true) else Skip(|EncodeOpt(o)|)
  {
  }

  // ---- every area is an option list and a tail

  /** How an area goes on behind its last whole option: it ends, or an option is cut short. */
  datatype Tail =
    | Ends(pad: bytes)
    | NoLength(kind: byte)
    | ShortLength(kind: byte, len: byte, rest: bytes)
    | Overrun(kind: byte, len: byte, rest: bytes)

  predicate WellFormedTail(t: Tail) {
    match t
    case Ends(pad) => pad == [] || pad[0] == EOL
    case NoLength(kind) => kind >= 2
    case ShortLength(kind, len, rest) => kind >= 2 && len < 2
    case Overrun(kind, len, rest) => kind >= 2 && |rest| + 2 < len as int
  }

  function EncodeTail(t: Tail): bytes {
    match t
    case Ends(pad) => pad
    case NoLength(kind) => [kind]
    case ShortLength(kind, len, rest) => [kind, len] + rest
    case Overrun(kind, len, rest) => [kind, len] + rest
  }

  function Parse(s: bytes): (OptList, Tail) {
    if s == [] || s[0] == EOL then (Done, Ends(s))
    else if s[0] == NOP then
      var (os, t) := Parse(s[1..]);
      (More(Nop, os), t)
    else if |s| == 1 then (Done, NoLength(s[0]))
    else if s[1] < 2 then (Done, ShortLength(s[0], s[1], s[2..]))
    else if s[1] as int > |s| then (Done, Overrun(s[0], s[1], s[2..]))
    else
      var (os, t) := Parse(s[s[1]..]);
      (More(Tlv(s[0], s[2..s[1]]), os), t)
  }

  /** `p` describes the area `s`. */
  predicate Describes(s: bytes, p: (OptList, Tail)) {
    AllWellFormed(p.0) && WellFormedTail(p.1) && Encode(p.0) + EncodeTail(p.1) == s
  }

  /** Every area is the encoding of what it parses to. */
  lemma {:induction false} ParseEncodes(s: bytes)
    ensures Describes(s, Parse(s))
  {
    if s == [] || s[0] == EOL {
      assert Encode(Done) + s == s;
    } else if s[0] == NOP {
      ParseEncodes(s[1..]);
      assert s[..1] == [NOP];
      HeadDescribed(s, 1, Nop, Parse(s[1..]));
    } else if |s| == 1 || s[1] < 2 || s[1] as int > |s| {
      CutDescribed(s);
    } else {
      ParseEncodes(s[s[1]..]);
      TlvDescribed(s, s[1], Parse(s[s[1]..]));
    }
  }

  lemma HeadDescribed(s: bytes, k: nat, o: Opt, p: (OptList, Tail))
    requires k <= |s| && WellFormed(o) && EncodeOpt(o) == s[..k] && Describes(s[k..], p)
    ensures Describes(s, (More(o, p.0), p.1))
  {
    Regroup(EncodeOpt(o), Encode(p.0), EncodeTail(p.1));
    assert s == s[..k] + s[k..];
  }

  lemma Regroup(a: bytes, b: bytes, c: bytes)
    ensures a + b + c == a + (b + c)
  {
  }

  lemma TlvDescribed(s: bytes, k: nat, p: (OptList, Tail))
    requires |s| >= 2 && s[0] >= 2 && 2 <= k <= |s| && k == s[1] as int && Describes(s[k..], p)
    ensures Describes(s, (More(Tlv(s[0], s[2..k]), p.0), p.1))
  {
    assert s[..k] == [s[0], s[1]] + s[2..k];
    HeadDescribed(s, k, Tlv(s[0], s[2..k]), p);
  }

  lemma CutDescribed(s: bytes)
    requires s != [] && s[0] >= 2 && (|s| == 1 || s[1] < 2 || s[1] as int > |s|)
    ensures Describes(s, Parse(s))
  {
    assert s == if |s| == 1 then [s[0]] else [s[0], s[1]] + s[2..];
    assert EncodeTail(Parse(s).1) == s;
    assert Encode(Done) + s == s;
  }

  /** And parsing reads back what was encoded, so the two are one to one. */
  lemma {:induction false} ParseReads(os: OptList, t: Tail)
    requires AllWellFormed(os) && WellFormedTail(t)
    ensures Parse(Encode(os) + EncodeTail(t)) == (os, t)
  {
    var s := Encode(os) + EncodeTail(t);
    if os.Done? {
      assert s == EncodeTail(t);
      TailReads(t);
    } else {
      var e, rest := EncodeOpt(os.head), Encode(os.tail) + EncodeTail(t);
      assert s == e + rest;
      assert s[|e|..] == rest;
      ParseReads(os.tail, t);
      assert os.head.Tlv? ==> s[2..|e|] == os.head.data;
    }
  }

  lemma TailReads(t: Tail)
    requires WellFormedTail(t)
    ensures Parse(EncodeTail(t)) == (Done, t)
  {
    var s := EncodeTail(t);
    assert t.ShortLength? || t.Overrun? ==> s[2..] == t.rest;
  }

  /** What the program refuses of a cut option. */
  predicate RefusesTail(t: Tail) {
    t.NoLength? || t.ShortLength? || (t.Overrun? && t.kind in {LSRR, SSRR})
  }

  /** Over any area, encoded in the only way it can be: refused exactly for a source route, whole
      or cut, an option without a length and a length below 2. */
  lemma {:induction false} WalkRefusesExactly(os: OptList, t: Tail)
    requires AllWellFormed(os) && WellFormedTail(t)
    ensures AreaWalk(Encode(os) + EncodeTail(t)) <==> HasRoute(os) || RefusesTail(t)
  {
    if os.Done? {
      assert Encode(os) + EncodeTail(t) == EncodeTail(t);
    } else {
      var e, rest := EncodeOpt(os.head), Encode(os.tail) + EncodeTail(t);
      var s := Encode(os) + EncodeTail(t);
      assert s == e + rest;
      StepReadsOption(os.head, rest);
      assert s[|e|..] == rest;
      WalkRefusesExactly(os.tail, t);
      assert rest == [] ==> !AreaWalk(rest);
    }
  }

  /** An area that holds the encoding of an option list and then ends, or goes on with an
      end-of-list byte, is refused exactly when the list holds a source route. */
  lemma WalkReadsEncodedOptions(os: OptList, pad: bytes)
    requires AllWellFormed(os) && (pad == [] || pad[0] == EOL)
    ensures AreaWalk(Encode(os) + pad) <==> HasRoute(os)
  {
    WalkRefusesExactly(os, Ends(pad));
  }

  /** A malformed list is refused, as promised, unless its only fault is that a last option other
      than a source route claims to run past the area. This holds from the start of the area or
      from any option in it. */
  lemma OverrunIsAccepted(d: bytes, off: nat, len: nat, i: nat)
    requires i <= len && off + len <= |d|
    ensures var (os, t) := Parse(d[off + i..off + len]);
            && (Walk(d, off, len, i) <==> HasRoute(os) || RefusesTail(t))
            && ((Walk(d, off, len, i) <==> HasRoute(os) || !t.Ends?)
                <==> HasRoute(os) || !t.Overrun? || t.kind in {LSRR, SSRR})
  {
    var s := d[off + i..off + len];
    var (os, t) := Parse(s);
    WalkIsAreaWalk(d, off, len, i);
    ParseEncodes(s);
    WalkRefusesExactly(os, t);
  }

  /** A record route option of 40 bytes in an area of four. */
  lemma OverrunHappens()
    ensures Parse([7, 40, 4, 0]) == (Done, Overrun(7, 40, [4, 0])) && !AreaWalk([7, 40, 4, 0])
  {
    var s: bytes := [7, 40, 4, 0];
    assert s[2..] == [4, 0];
    assert OptionStep(s, 0, 4, 0) == Skip(40);
  }
}
