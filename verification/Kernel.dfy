/** The socket buffer and the BPF helpers the programs call, under contracts that let every
    helper refuse. `faulted` records that one refused a request it could have served. */
module Kernel {
  import opened Bytes
  import opened Checksum

  const ETH_HLEN: nat := 14

  datatype Action = ActOk | ActShot

  /** How the stack accounts for the transport checksum of the packet. */
  datatype Mode = SumNone | SumPartial | SumComplete

  datatype L3 = Ip4 | Ip6

  function BaseLen(p: L3): nat {
    if p.Ip4? then 20 else 40
  }

  /** What `bpf_l4_csum_replace` leaves in the field. */
  function NewField(mode: Mode, field: u16, diff: u32, mangle0: bool, enforce: bool): u16 {
    if mangle0 && !enforce && field == 0 then field
    else
      var v := if mode.SumPartial? then UpdatePartial(field, diff) else UpdateField(field, diff);
      if mangle0 && v == 0 then 0xffff else v
  }

  /** A field moved by a difference of covered bytes: down when it holds a complemented sum, up
      when it holds a partial one. With `mangled` zero is never left; without it a complemented
      field takes the representative below 0xffff. A partial field that is not zero stays so. */
  ghost predicate FieldMoved(mode: Mode, old_: u16, new_: u16, delta: int, mangled: bool) {
    && Cong(new_, if mode.SumPartial? then old_ as int + delta else old_ as int - delta)
    && (mangled ==> new_ != 0)
    && (!mangled && !mode.SumPartial? ==> new_ != 0xffff)
    && (mode.SumPartial? && old_ != 0 ==> new_ != 0)
  }

  lemma NewFieldMoves(mode: Mode, field: u16, diff: u32, delta: int, mangle0: bool, enforce: bool)
    requires Cong(diff, delta)
    requires mangle0 && !enforce ==> field != 0
    ensures FieldMoved(mode, field, NewField(mode, field, diff, mangle0, enforce), delta, mangle0)
  {
    var f: int := field;
    if mode.SumPartial? {
      UpdatePartialSpec(field, diff);
      CongOffset(diff, delta, f);
      CongTrans(UpdatePartial(field, diff), f + diff as int, f + delta);
      ZeroOrFull(UpdatePartial(field, diff), f + delta);
    } else {
      UpdateFieldSpec(field, diff);
      CongOffset(diff, delta, f);
      CongTrans(UpdateField(field, diff), f - diff as int, f - delta);
      ZeroOrFull(UpdateField(field, diff), f - delta);
    }
  }

  lemma ZeroOrFull(v: int, x: int)
    requires Cong(v, x)
    ensures v == 0 ==> Cong(0xffff, x)
  {
    CongShift(v, x, 1);
  }

  /** A complemented field is determined by the difference alone. */
  lemma FieldMovedUnique(mode: Mode, old_: u16, a: u16, b: u16, delta: int, mangled: bool)
    requires !mode.SumPartial?
    requires FieldMoved(mode, old_, a, delta, mangled) && FieldMoved(mode, old_, b, delta, mangled)
    ensures a == b
  {
    CongSym(b, old_ as int - delta);
    CongTrans(a, old_ as int - delta, b);
    CongUnique(a, b);
  }

  predicate IsDiff(d: u32, words: int, positive: bool) {
    (d as int - words) % 0xffff == 0 && (positive ==> d > 0)
  }

  /** `bpf_csum_diff`: some 32-bit value of the right class, never zero for a non-zero sum. */
  method CsumDiff(from: bytes, to: bytes, seed: u32) returns (d: u32)
    requires |from| % 4 == 0 && |to| % 4 == 0 && |from| + |to| <= 512
    ensures Cong(d, seed as int - Le(from) + Le(to))
    ensures from == [] && (seed > 0 || Le(to) > 0) ==> d > 0
  {
    var words := seed as int - Words32(from) + Words32(to);
    WordsClass(from, to, seed);
    var positive := from == [] && (seed > 0 || Le(to) > 0);
    var w: u32 := if words % 0xffff == 0 then 0xffff else words % 0xffff;
    DiffWitness(words, w, positive);
    d :| IsDiff(d, words, positive);
    DiffClass(d, words, seed as int - Le(from) + Le(to), positive);
  }

  lemma WordsClass(from: bytes, to: bytes, seed: int)
    requires |from| % 4 == 0 && |to| % 4 == 0
    ensures Cong(seed - Words32(from) + Words32(to), seed - Le(from) + Le(to))
  {
    WordsAreLe(from);
    WordsAreLe(to);
    CongAdd(Words32(to), Le(to), Words32(from), Le(from));
    CongOffset(Words32(to) - Words32(from), Le(to) - Le(from), seed);
  }

  lemma DiffWitness(words: int, w: u32, positive: bool)
    requires w == if words % 0xffff == 0 then 0xffff else words % 0xffff
    ensures IsDiff(w, words, positive)
  {
  }

  lemma DiffClass(d: u32, words: int, target: int, positive: bool)
    requires IsDiff(d, words, positive) && Cong(words, target)
    ensures Cong(d, target) && (positive ==> d > 0)
  {
    CongMod(d as int - words);
    CongOffset(d as int - words, 0, words);
    CongTrans(d, words, target);
  }

  class Skb {
    /** The frame, MAC header first. */
    var data: bytes
    /** How much of it the program may read directly. */
    var linear: nat
    /** `skb->protocol`. */
    var l3: L3
    var mode: Mode
    var csum: u32
    ghost var faulted: bool

    ghost predicate Valid()
      reads this
    {
      linear <= |data|
    }

    /** A checksum-complete packet carries the sum of everything after the MAC header. */
    ghost predicate CsumOk()
      reads this
    {
      mode.SumComplete? ==> ETH_HLEN <= |data| && Cong(csum, Le(data[ETH_HLEN..]))
    }

    method EnsureLinear(len: nat) returns (ok: bool)
      requires Valid()
      modifies this`linear, this`faulted
      ensures Valid()
      ensures old(faulted) ==> faulted
      ensures ok ==> len <= linear && faulted == old(faulted)
      ensures !ok ==> faulted || |data| < len
    {
      ok := true;
      if linear >= len {
        return;
      }
      if len > |data| {
        ok := false;
      } else if * {
        faulted := true;
        ok := false;
      } else {
        linear := len;
      }
    }

    method LoadBytes(off: nat, len: nat) returns (ok: bool, b: bytes)
      requires Valid()
      modifies this`faulted
      ensures old(faulted) ==> faulted
      ensures ok ==> off + len <= |data| && b == data[off..off + len] && faulted == old(faulted)
      ensures !ok ==> faulted || off + len > |data|
    {
      b := [];
      ok := false;
      if off + len > |data| {
        return;
      }
      if * {
        faulted := true;
        return;
      }
      ok := true;
      b := data[off..off + len];
    }

    /** The MAC header is outside `csum`, so a store there must not recompute and a store behind
        it must. */
    method StoreBytes(off: nat, b: bytes, recompute: bool) returns (ok: bool)
      requires Valid()
      modifies this
      ensures Valid() && l3 == old(l3) && mode == old(mode) && (old(faulted) ==> faulted)
      ensures ok ==> off + |b| <= |old(data)| && data == Splice(old(data), off, b)
                     && faulted == old(faulted)
      ensures !ok ==> faulted || off + |b| > |old(data)|
      ensures ok && old(CsumOk()) && (if recompute then off >= ETH_HLEN else off + |b| <= ETH_HLEN)
              ==> CsumOk()
    {
      ok := false;
      if off + |b| > |data| {
        return;
      }
      if * {
        faulted := true;
        return;
      }
      ok := true;
      if mode.SumComplete? && recompute {
        var heavy := off % 2 == 1;
        var moved := csum as int - SumAt(data[off..off + |b|], heavy) + SumAt(b, heavy);
        if off >= ETH_HLEN && CsumOk() {
          StoreKeepsSum(data, off, b, csum, heavy);
          ModCong(moved, Le(Splice(data, off, b)[ETH_HLEN..]));
        }
        csum := moved % 0xffff;
      }
      if mode.SumComplete? && off + |b| <= ETH_HLEN <= |data| {
        assert Splice(data, off, b)[ETH_HLEN..] == data[ETH_HLEN..];
      }
      data := Splice(data, off, b);
      Relinearise();
    }

    /** `bpf_skb_change_proto`: 20 bytes come or go right behind the MAC header. */
    method ChangeProto(to: L3) returns (ok: bool)
      requires Valid()
      modifies this
      ensures Valid() && mode == old(mode) && (old(faulted) ==> faulted)
      ensures ok ==> ETH_HLEN + 20 <= |old(data)| && l3 == to && old(l3) != to
                     && faulted == old(faulted)
      ensures ok && to.Ip6? ==>
                |data| == |old(data)| + 20 && data[..ETH_HLEN] == old(data)[..ETH_HLEN]
                && data[ETH_HLEN + 20..] == old(data)[ETH_HLEN..]
      ensures ok && to.Ip4? ==> data == Remove(old(data), ETH_HLEN, 20)
      ensures !ok ==> faulted || ETH_HLEN + 20 > |old(data)| || old(l3) == to
      ensures ok && old(CsumOk()) ==> CsumOk()
    {
      ok := false;
      if ETH_HLEN + 20 > |data| || l3 == to {
        return;
      }
      if * {
        faulted := true;
        return;
      }
      ok := true;
      l3 := to;
      if to.Ip6? {
        Grow(ETH_HLEN, 20);
      } else {
        Shrink(ETH_HLEN, 20);
      }
    }

    /** `bpf_skb_adjust_room` in network mode: bytes come or go right behind the base L3 header. */
    method AdjustRoom(delta: int, noCsumReset: bool) returns (ok: bool)
      requires Valid()
      modifies this
      ensures Valid() && l3 == old(l3) && (old(faulted) ==> faulted)
      ensures mode == if ok && !noCsumReset then SumNone else old(mode)
      ensures var at := ETH_HLEN + BaseLen(old(l3));
              && (ok ==> at - (if delta < 0 then delta else 0) <= |old(data)| && faulted == old(faulted))
              && (ok && delta >= 0 ==>
                    |data| == |old(data)| + delta && data[..at] == old(data)[..at]
                    && data[at + delta..] == old(data)[at..])
              && (ok && delta < 0 ==> data == Remove(old(data), at, -delta))
              && (!ok ==> faulted || at - (if delta < 0 then delta else 0) > |old(data)|)
      ensures ok && noCsumReset && delta % 2 == 0 && old(CsumOk()) ==> CsumOk()
    {
      ok := false;
      var at := ETH_HLEN + BaseLen(l3);
      if at - (if delta < 0 then delta else 0) > |data| {
        return;
      }
      if * {
        faulted := true;
        return;
      }
      ok := true;
      if delta >= 0 {
        Grow(at, delta);
      } else {
        Shrink(at, -delta);
      }
      if !noCsumReset {
        mode := SumNone;
      }
    }

    /** `bpf_l4_csum_replace` with a difference and `BPF_F_PSEUDO_HDR`. */
    method L4CsumReplace(off: nat, diff: u32, mangle0: bool, enforce: bool) returns (ok: bool)
      requires Valid()
      modifies this
      ensures Valid() && l3 == old(l3) && mode == old(mode) && (old(faulted) ==> faulted)
      ensures ok ==> off + 2 <= |old(data)| && faulted == old(faulted)
                     && data == Splice(old(data), off,
                                       Le16(NewField(mode, GetLe16(old(data), off), diff, mangle0, enforce)))
      ensures !ok ==> faulted || off + 2 > |old(data)| || off % 2 == 1 || off > 0xffff
      ensures ok && off >= ETH_HLEN && old(CsumOk()) ==> CsumOk()
    {
      ok := false;
      if off + 2 > |data| || off % 2 == 1 || off > 0xffff {
        return;
      }
      if * {
        faulted := true;
        return;
      }
      ok := true;
      var field := GetLe16(data, off);
      var next := NewField(mode, field, diff, mangle0, enforce);
      if mode.SumComplete? && !(mangle0 && !enforce && field == 0) {
        if off >= ETH_HLEN && CsumOk() {
          CompleteKeepsSum(data, off, diff, mangle0, enforce, csum);
        }
        csum := 0xffff_ffff - CsumAdd(diff, 0xffff_ffff - csum);
      } else {
        assert mode.SumComplete? ==> Splice(data, off, Le16(field)) == data;
      }
      data := Splice(data, off, Le16(next));
      Relinearise();
    }

    /** Helpers that touch the buffer may change what is directly readable. */
    method Relinearise()
      modifies this`linear
      ensures Valid()
    {
      var l: nat :| l <= |data|;
      linear := l;
    }

    method Grow(at: nat, n: nat)
      requires ETH_HLEN <= at <= |data| && at % 2 == 0
      modifies this`data, this`linear, this`csum
      ensures Valid() && |data| == |old(data)| + n
      ensures data[..at] == old(data)[..at] && data[at + n..] == old(data)[at..]
      ensures n % 2 == 0 && old(CsumOk()) ==> CsumOk()
    {
      assert |seq(n, _ => 0 as byte)| == n;
      var fill: bytes :| |fill| == n;
      if mode.SumComplete? {
        var moved := csum as int + Le(fill);
        if n % 2 == 0 && CsumOk() {
          GrowKeepsSum(data, at, fill, csum);
          ModCong(moved, Le(Insert(data, at, fill)[ETH_HLEN..]));
        }
        csum := moved % 0xffff;
      }
      data := Insert(data, at, fill);
      Relinearise();
    }

    method Shrink(at: nat, n: nat)
      requires ETH_HLEN <= at && at + n <= |data| && at % 2 == 0
      modifies this`data, this`linear, this`csum
      ensures Valid() && data == Remove(old(data), at, n)
      ensures n % 2 == 0 && old(CsumOk()) ==> CsumOk()
    {
      if mode.SumComplete? {
        var moved := csum as int - Le(data[at..at + n]);
        if n % 2 == 0 && CsumOk() {
          ShrinkKeepsSum(data, at, n, csum);
          ModCong(moved, Le(Remove(data, at, n)[ETH_HLEN..]));
        }
        csum := moved % 0xffff;
      }
      data := Remove(data, at, n);
      Relinearise();
    }
  }

  // ---- why each helper keeps `csum` in step

  lemma StoreKeepsSum(d: bytes, off: nat, b: bytes, csum: u32, heavy: bool)
    requires ETH_HLEN <= off && off + |b| <= |d| && heavy == (off % 2 == 1)
    requires Cong(csum, Le(d[ETH_HLEN..]))
    ensures Cong(csum as int - SumAt(d[off..off + |b|], heavy) + SumAt(b, heavy),
                 Le(Splice(d, off, b)[ETH_HLEN..]))
  {
    var p, a, t := d[ETH_HLEN..off], d[off..off + |b|], d[off + |b|..];
    assert d[ETH_HLEN..] == p + a + t;
    assert Splice(d, off, b)[ETH_HLEN..] == p + b + t;
    assert heavy == (|p| % 2 == 1);
    ReplaceKeepsSum(p, a, b, t, csum, heavy);
  }

  lemma ReplaceKeepsSum(p: bytes, a: bytes, b: bytes, t: bytes, csum: int, heavy: bool)
    requires |a| == |b| && heavy == (|p| % 2 == 1)
    requires Cong(csum, Le(p + a + t))
    ensures Cong(csum - SumAt(a, heavy) + SumAt(b, heavy), Le(p + b + t))
  {
    ReplaceMovesSum(p, a, b, t, heavy);
    SumMoved(csum, Le(p + a + t), Le(p + b + t), SumAt(a, heavy), SumAt(b, heavy));
  }

  lemma ReplaceMovesSum(p: bytes, a: bytes, b: bytes, t: bytes, heavy: bool)
    requires |a| == |b| && heavy == (|p| % 2 == 1)
    ensures Le(p + b + t) == Le(p + a + t) - SumAt(a, heavy) + SumAt(b, heavy)
  {
    SumReplace(p, a, b, t, false);
  }

  lemma SumMoved(csum: int, before: int, after: int, x: int, y: int)
    requires Cong(csum, before) && after == before - x + y
    ensures Cong(csum - x + y, after)
  {
    CongOffset(csum, before, y - x);
  }

  lemma ModCong(a: int, b: int)
    requires Cong(a, b)
    ensures Cong(a % 0xffff, b)
  {
    CongMod(a);
    CongTrans(a % 0xffff, a, b);
  }

  lemma GrowKeepsSum(d: bytes, at: nat, fill: bytes, csum: u32)
    requires ETH_HLEN <= at <= |d| && at % 2 == 0 && |fill| % 2 == 0
    ensures Cong(csum, Le(d[ETH_HLEN..]))
            ==> Cong(csum as int + Le(fill), Le(Insert(d, at, fill)[ETH_HLEN..]))
  {
    if Cong(csum, Le(d[ETH_HLEN..])) {
      var p, t := d[ETH_HLEN..at], d[at..];
      assert d[ETH_HLEN..] == p + t;
      assert Insert(d, at, fill)[ETH_HLEN..] == p + fill + t;
      LeConcat3(p, fill, t);
      LeConcat(p, t);
      CongOffset(csum, Le(p + t), Le(fill));
    }
  }

  lemma ShrinkKeepsSum(d: bytes, at: nat, n: nat, csum: u32)
    requires ETH_HLEN <= at && at + n <= |d| && at % 2 == 0 && n % 2 == 0
    ensures Cong(csum, Le(d[ETH_HLEN..]))
            ==> Cong(csum as int - Le(d[at..at + n]), Le(Remove(d, at, n)[ETH_HLEN..]))
  {
    if Cong(csum, Le(d[ETH_HLEN..])) {
      var p, a, t := d[ETH_HLEN..at], d[at..at + n], d[at + n..];
      assert d[ETH_HLEN..] == p + a + t;
      assert Remove(d, at, n)[ETH_HLEN..] == p + t;
      LeConcat3(p, a, t);
      LeConcat(p, t);
      CongOffset(csum, Le(p + a + t), 0 - Le(a));
    }
  }

  lemma CompleteKeepsSum(d: bytes, off: nat, diff: u32, mangle0: bool, enforce: bool, csum: u32)
    requires ETH_HLEN <= off && off + 2 <= |d| && off % 2 == 0 && Cong(csum, Le(d[ETH_HLEN..]))
    requires mangle0 && !enforce ==> GetLe16(d, off) != 0
    ensures Cong(0xffff_ffff - CsumAdd(diff, 0xffff_ffff - csum),
                 Le(Splice(d, off, Le16(NewField(SumComplete, GetLe16(d, off), diff, mangle0, enforce)))[ETH_HLEN..]))
  {
    var field := GetLe16(d, off);
    CongRefl(diff);
    NewFieldMoves(SumComplete, field, diff, diff, mangle0, enforce);
    CsumAddSpec(diff, 0xffff_ffff - csum);
    FieldKeepsSum(d, off, NewField(SumComplete, field, diff, mangle0, enforce), diff,
                  CsumAdd(diff, 0xffff_ffff - csum), csum);
  }

  /** The field loses exactly what `csum` loses. */
  lemma FieldKeepsSum(d: bytes, off: nat, next: u16, diff: int, c: int, csum: int)
    requires ETH_HLEN <= off && off + 2 <= |d| && off % 2 == 0
    requires Cong(next, GetLe16(d, off) as int - diff)
    requires Cong(csum, Le(d[ETH_HLEN..])) && Cong(c, diff + (0xffff_ffff - csum))
    ensures Cong(0xffff_ffff - c, Le(Splice(d, off, Le16(next))[ETH_HLEN..]))
  {
    var q := d[ETH_HLEN..];
    assert Splice(d, off, Le16(next))[ETH_HLEN..] == Splice(q, off - ETH_HLEN, Le16(next));
    assert GetLe16(q, off - ETH_HLEN) == GetLe16(d, off);
    LeField(q, off - ETH_HLEN, next);
    CompleteMoves(c, csum, diff, GetLe16(d, off), next, Le(q));
  }

  lemma CompleteMoves(c: int, csum: int, diff: int, field: int, next: int, q: int)
    requires Cong(c, diff + (0xffff_ffff - csum))
    requires Cong(next, field - diff)
    requires Cong(csum, q)
    ensures Cong(0xffff_ffff - c, q - field + next)
  {
    CongOffset(c, diff + (0xffff_ffff - csum), 0xffff_ffff);
    CongOffset(csum, q, 0 - diff);
    CongTrans(0xffff_ffff - c, csum - diff, q - diff);
    CongOffset(next, field - diff, q - field);
    CongSym(next + (q - field), q - diff);
    CongTrans(0xffff_ffff - c, q - diff, q - field + next);
  }
}
