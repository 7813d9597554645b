/** Ones'-complement arithmetic (RFC 1071, RFC 1624).

    The programs compute in the byte order of the machine, on 32-bit words; the reference
    definition sums big-endian 16-bit words. Both are instances of `SumAt`, which weighs bytes
    alternately by 1 and 256. */
module Checksum {
  import opened Bytes

  /** Equal as ones'-complement sums: a multiple of 0xffff apart. */
  ghost predicate Cong(a: int, b: int) {
    exists k: int :: Apart(a, b, k)
  }

  ghost predicate Apart(a: int, b: int, k: int) {
    a == b + 0xffff * k
  }

  lemma CongShift(a: int, b: int, m: int)
    requires Cong(a, b)
    ensures Cong(a, b + 0xffff * m) && Cong(a + 0xffff * m, b)
  {
    var k :| Apart(a, b, k);
    assert Apart(a, b + 0xffff * m, k - m) && Apart(a + 0xffff * m, b, k + m);
  }

  lemma CongRefl(a: int)
    ensures Cong(a, a)
  {
    assert Apart(a, a, 0);
  }

  lemma CongTrans(a: int, b: int, c: int)
    requires Cong(a, b) && Cong(b, c)
    ensures Cong(a, c)
  {
    var k :| Apart(a, b, k);
    var m :| Apart(b, c, m);
    assert Apart(a, c, k + m);
  }

  lemma CongSym(a: int, b: int)
    requires Cong(a, b)
    ensures Cong(b, a)
  {
    var k :| Apart(a, b, k);
    assert Apart(b, a, -k);
  }

  lemma CongAdd(a: int, b: int, c: int, d: int)
    requires Cong(a, b) && Cong(c, d)
    ensures Cong(a + c, b + d) && Cong(a - c, b - d)
  {
    var k :| Apart(a, b, k);
    var m :| Apart(c, d, m);
    assert Apart(a + c, b + d, k + m) && Apart(a - c, b - d, k - m);
  }

  /** Congruence is kept by a common offset and by negation. */
  lemma CongOffset(a: int, b: int, c: int)
    requires Cong(a, b)
    ensures Cong(a + c, b + c) && Cong(c - a, c - b)
  {
    CongRefl(c);
    CongAdd(a, b, c, c);
    CongAdd(c, c, a, b);
  }

  lemma CongScale(a: int, b: int)
    requires Cong(a, b)
    ensures Cong(0x100 * a, 0x100 * b)
  {
    var k :| Apart(a, b, k);
    assert Apart(0x100 * a, 0x100 * b, 0x100 * k);
  }

  lemma CongMod(a: int)
    ensures Cong(a % 0xffff, a)
    ensures Cong(a, 0) <==> a % 0xffff == 0
  {
    assert Apart(a % 0xffff, a, -(a / 0xffff));
    if a % 0xffff == 0 {
      assert Apart(a, 0, a / 0xffff);
    }
  }

  /** Each class has one representative in 1..0xffff and one in 0..0xfffe. */
  lemma CongUnique(a: int, b: int)
    requires Cong(a, b)
    requires (1 <= a <= 0xffff && 1 <= b <= 0xffff) || (0 <= a < 0xffff && 0 <= b < 0xffff)
    ensures a == b
  {
    var k :| Apart(a, b, k);
  }

  /** Weighted byte sum; `high` says whether the first byte is the heavy half of its word. */
  function SumAt(s: bytes, high: bool): nat {
    if s == [] then 0 else (if high then 0x100 * (s[0] as int) else s[0] as int) + SumAt(s[1..], !high)
  }

  /** Sum of little-endian 16-bit words: what the machine computes. */
  function Le(s: bytes): nat {
    SumAt(s, false)
  }

  /** Sum of big-endian 16-bit words, odd tail padded with zero: the reference. */
  function Sum16(s: bytes): nat {
    if |s| >= 2 then GetBe16(s, 0) + Sum16(s[2..])
    else if |s| == 1 then 0x100 * (s[0] as int)
    else 0
  }

  /** Sum of the little-endian 32-bit words of a buffer, before any folding. */
  function Words32(s: bytes): nat
    requires |s| % 4 == 0
  {
    if s == [] then 0 else GetLe32(s, 0) + Words32(s[4..])
  }

  // ---- sums of composed buffers

  lemma {:induction false} SumConcat(a: bytes, b: bytes, high: bool)
    ensures SumAt(a + b, high) == SumAt(a, high) + SumAt(b, if |a| % 2 == 0 then high else !high)
  {
    if a == [] {
      assert a + b == b;
    } else {
      assert (a + b)[1..] == a[1..] + b;
      SumConcat(a[1..], b, !high);
    }
  }

  lemma LeConcat(a: bytes, b: bytes)
    requires |a| % 2 == 0
    ensures Le(a + b) == Le(a) + Le(b)
  {
    SumConcat(a, b, false);
  }

  lemma LeConcat3(a: bytes, b: bytes, c: bytes)
    requires |a| % 2 == 0 && |b| % 2 == 0
    ensures Le(a + b + c) == Le(a) + Le(b) + Le(c)
  {
    LeConcat(a + b, c);
    LeConcat(a, b);
  }

  /** Replacing a block in place moves the sum by the difference of the blocks, wherever the
      block starts or ends. */
  lemma SumReplace(p: bytes, a: bytes, b: bytes, t: bytes, high: bool)
    requires |a| == |b|
    ensures var h := if |p| % 2 == 0 then high else !high;
            SumAt(p + b + t, high) == SumAt(p + a + t, high) - SumAt(a, h) + SumAt(b, h)
  {
    SumConcat(p + a, t, high);
    SumConcat(p, a, high);
    SumConcat(p + b, t, high);
    SumConcat(p, b, high);
  }

  lemma LeSplice(d: bytes, off: nat, b: bytes)
    requires off + |b| <= |d| && off % 2 == 0
    ensures Le(Splice(d, off, b)) == Le(d) - Le(d[off..off + |b|]) + Le(b)
  {
    var a := d[off..off + |b|];
    assert d == d[..off] + a + d[off + |b|..];
    SumReplace(d[..off], a, b, d[off + |b|..], false);
  }

  lemma Le2(s: bytes)
    requires |s| == 2
    ensures Le(s) == GetLe16(s, 0)
  {
    assert s == [s[0]] + [s[1]];
    assert SumAt(s[1..], true) == 0x100 * (s[1] as int);
  }

  lemma Le1(x: byte)
    ensures Le([x]) == x
  {
    assert SumAt([x][1..], true) == 0;
  }

  lemma Le4(a: byte, b: byte, c: byte, d: byte)
    ensures Le([a, b, c, d]) == a as int + 0x100 * (b as int) + c as int + 0x100 * (d as int)
  {
    Le2([a, b]);
    Le2([c, d]);
    LeConcat([a, b], [c, d]);
    assert [a, b] + [c, d] == [a, b, c, d];
  }

  /** Rewriting one 16-bit field at an even offset. */
  lemma LeField(d: bytes, off: nat, v: u16)
    requires off + 2 <= |d| && off % 2 == 0
    ensures Le(Splice(d, off, Le16(v))) == Le(d) - GetLe16(d, off) + v
  {
    LeSplice(d, off, Le16(v));
    Le2(d[off..off + 2]);
    Le2(Le16(v));
  }

  /** Rewriting the first byte. */
  lemma LeFirstByte(q: bytes, t: byte)
    requires |q| >= 1
    ensures Le(q[0 := t]) == Le(q) - q[0] as int + t as int
  {
    assert q[0 := t] == Splice(q, 0, [t]);
    LeSplice(q, 0, [t]);
    Le1(q[0]);
    Le1(t);
    assert q[0..1] == [q[0]];
  }

  lemma {:induction false} SumZero(s: bytes, high: bool)
    ensures SumAt(s, high) == 0 <==> forall i :: 0 <= i < |s| ==> s[i] == 0
  {
    if s != [] {
      SumZero(s[1..], !high);
      assert forall i :: 1 <= i < |s| ==> s[i] == s[1..][i - 1];
    }
  }

  // ---- the machine's sums against the reference

  lemma {:induction false} Sum16IsWeighted(s: bytes)
    ensures Sum16(s) == SumAt(s, true)
  {
    if |s| >= 2 {
      Sum16IsWeighted(s[2..]);
      assert s[1..][1..] == s[2..];
    }
  }

  lemma {:induction false} WordsAreLe(s: bytes)
    requires |s| % 4 == 0
    ensures Cong(Words32(s), Le(s))
  {
    if s == [] {
      CongRefl(0);
    } else {
      WordsAreLe(s[4..]);
      var h := s[..4];
      assert s == h + s[4..];
      LeConcat(h, s[4..]);
      Le4(s[0], s[1], s[2], s[3]);
      assert h == [s[0], s[1], s[2], s[3]];
      var m: int := GetLe16(s, 2);
      assert GetLe32(s, 0) == Le(h) + 0xffff * m;
      CongOffset(Words32(s[4..]), Le(s[4..]), Le(h));
      CongShift(Words32(s[4..]) + Le(h), Le(s[4..]) + Le(h), m);
    }
  }

  lemma {:induction false} SwapHalves(s: bytes, high: bool)
    ensures Cong(SumAt(s, !high), 0x100 * SumAt(s, high))
  {
    if s == [] {
      CongRefl(0);
    } else {
      var x: int := s[0];
      var swapped, same := SumAt(s[1..], high), SumAt(s[1..], !high);
      SwapHalves(s[1..], !high);
      if high {
        CongOffset(swapped, 0x100 * same, x);
        CongShift(swapped + x, 0x100 * same + x, x);
      } else {
        CongOffset(swapped, 0x100 * same, 0x100 * x);
      }
    }
  }

  /** The reference sum is the machine's sum with its bytes swapped. */
  lemma Sum16IsSwappedLe(s: bytes)
    ensures Cong(Sum16(s), 0x100 * Le(s))
    ensures Sum16(s) == 0 <==> Le(s) == 0
  {
    Sum16IsWeighted(s);
    SwapHalves(s, false);
    SumZero(s, true);
    SumZero(s, false);
  }

  /** Swapping the bytes of two sums preserves and reflects their congruence. */
  lemma SwapCong(a: int, b: int, sa: int, sb: int)
    requires Cong(sa, 0x100 * a) && Cong(sb, 0x100 * b)
    ensures Cong(a, b) <==> Cong(sa, sb)
  {
    if Cong(a, b) {
      CongScale(a, b);
      CongTrans(sa, 0x100 * a, 0x100 * b);
      CongSym(sb, 0x100 * b);
      CongTrans(sa, 0x100 * b, sb);
    }
    if Cong(sa, sb) {
      CongSym(sa, 0x100 * a);
      CongTrans(0x100 * a, sa, sb);
      CongTrans(0x100 * a, sb, 0x100 * b);
      CongScale(0x100 * a, 0x100 * b);
      CongShift(0x1_0000 * a, 0x1_0000 * b, 0 - a);
      CongShift(a, 0x1_0000 * b, 0 - b);
    }
  }

  // ---- folding

  /** `csum_fold`: two folds and a complement. */
  function CsumFold(x: u32): u16 {
    var s := x % 0x1_0000 + x / 0x1_0000;
    0xffff - (s % 0x1_0000 + s / 0x1_0000)
  }

  /** Fold until the sum fits in 16 bits: the reference. */
  function FoldAll(s: nat): u16 {
    if s > 0xffff then FoldAll(s % 0x1_0000 + s / 0x1_0000) else s
  }

  /** The reference checksum of a total. */
  function RefCsum(total: nat): u16 {
    0xffff - FoldAll(total)
  }

  lemma {:induction false} FoldAllSpec(s: nat)
    ensures Cong(FoldAll(s), s)
    ensures FoldAll(s) == 0 <==> s == 0
  {
    if s <= 0xffff {
      CongRefl(s);
    } else {
      var q := s / 0x1_0000;
      var t := s % 0x1_0000 + q;
      FoldAllSpec(t);
      CongShift(FoldAll(t), t, q);
      assert s == t + 0xffff * q;
    }
  }

  /** Two folds suffice for every 32-bit sum. */
  lemma TwoFoldsSuffice(x: u32)
    ensures CsumFold(x) == RefCsum(x)
  {
    var s := x % 0x1_0000 + x / 0x1_0000;
    var t := s % 0x1_0000 + s / 0x1_0000;
    assert FoldAll(s) == FoldAll(t) == t;
    assert FoldAll(x) == FoldAll(s);
  }

  lemma RefCsumSpec(t: nat)
    ensures Cong(RefCsum(t), 0 - t)
    ensures RefCsum(t) == 0xffff <==> t == 0
    ensures RefCsum(t) == 0 <==> t > 0 && Cong(t, 0)
  {
    FoldAllSpec(t);
    ComplementClass(FoldAll(t), t);
    FullMeansZero(FoldAll(t), t);
  }

  lemma ComplementClass(f: int, t: int)
    requires Cong(f, t)
    ensures Cong(0xffff - f, 0 - t)
  {
    CongOffset(f, t, 0xffff);
    CongShift(0xffff - f, 0xffff - t, -1);
  }

  lemma FullMeansZero(f: int, t: int)
    requires Cong(f, t) && 0 <= f <= 0xffff && 0 <= t && (f == 0 <==> t == 0)
    ensures f == 0xffff <==> t > 0 && Cong(t, 0)
  {
    if f == 0xffff {
      CongSym(f, t);
      CongShift(t, f, -1);
    }
    if Cong(t, 0) && t > 0 {
      CongTrans(f, t, 0);
      CongShift(f, 0, 1);
      CongUnique(f, 0xffff);
    }
  }

  lemma CsumFoldSpec(x: u32)
    ensures Cong(CsumFold(x), 0 - x)
    ensures CsumFold(x) == 0xffff <==> x == 0
    ensures CsumFold(x) == 0 <==> x > 0 && Cong(x, 0)
  {
    TwoFoldsSuffice(x);
    RefCsumSpec(x);
  }

  function SwapValue(v: u16): u16 {
    0x100 * (v % 0x100) as int + (v / 0x100) as int
  }

  lemma SwapValueSpec(v: u16)
    ensures Cong(SwapValue(v), 0x100 * v as int)
    ensures SwapValue(v) == 0xffff <==> v == 0xffff
  {
    var q: int := v / 0x100;
    assert Apart(SwapValue(v), 0x100 * v as int, 0 - q);
  }

  lemma SwapValueBytes(v: u16)
    ensures Le16(v) == Be16(SwapValue(v))
  {
    var hi: int, lo: int := v / 0x100, v % 0x100;
    DivModByte(lo, hi);
  }

  lemma DivModByte(hi: int, lo: int)
    requires 0 <= lo < 0x100
    ensures (0x100 * hi + lo) / 0x100 == hi && (0x100 * hi + lo) % 0x100 == lo
  {
  }

  /** A checksum computed on native words and stored natively is, byte for byte, the reference
      checksum stored in network order. */
  lemma NativeStoreIsNetworkOrder(le: nat, be: nat)
    requires Cong(be, 0x100 * le)
    requires le == 0 <==> be == 0
    ensures Le16(RefCsum(le)) == Be16(RefCsum(be))
  {
    var v, w := RefCsum(le), RefCsum(be);
    RefCsumSpec(le);
    RefCsumSpec(be);
    var swapped := SwapValue(v);
    SwapValueSpec(v);
    SwapValueBytes(v);
    CongScale(v, 0 - le);
    CongTrans(swapped, 0x100 * v as int, 0x100 * (0 - le));
    CongOffset(be, 0x100 * le, 0);
    CongSym(0 - be, 0 - 0x100 * le);
    CongTrans(swapped, 0x100 * (0 - le), 0 - be);
    CongSym(w, 0 - be);
    CongTrans(swapped, 0 - be, w);
    if swapped != 0xffff {
      CongUnique(swapped, w);
    }
  }

  // ---- incremental update (RFC 1624)

  /** 32-bit end-around-carry addition. */
  function CsumAdd(a: u32, b: u32): u32 {
    if a + b < 0x1_0000_0000 then a + b else a + b - 0xffff_ffff
  }

  lemma CsumAddSpec(a: u32, b: u32)
    ensures Cong(CsumAdd(a, b), a as int + b as int)
    ensures b != 0 ==> CsumAdd(a, b) != 0
  {
    assert Apart(CsumAdd(a, b), a as int + b as int, if a + b >= 0x1_0000_0000 then -0x1_0001 else 0);
  }

  /** Patch a complemented checksum field by a difference of covered bytes. */
  function UpdateField(old_: u16, diff: u32): u16 {
    CsumFold(CsumAdd(diff, 0xffff_ffff - old_))
  }

  lemma UpdateFieldSpec(old_: u16, diff: u32)
    ensures Cong(UpdateField(old_, diff), old_ as int - diff as int)
    ensures UpdateField(old_, diff) != 0xffff
  {
    var x := 0xffff_ffff - old_;
    var y: int := CsumAdd(diff, x);
    CsumAddSpec(diff, x);
    CsumFoldSpec(y);
    CongOffset(y, diff as int + x as int, 0);
    CongTrans(UpdateField(old_, diff), 0 - y, 0 - (diff as int + x as int));
    CongShift(UpdateField(old_, diff), 0 - (diff as int + x as int), 0x1_0001);
  }

  /** Patch a partial checksum field (the uncomplemented pseudo-header sum). */
  function UpdatePartial(old_: u16, diff: u32): u16 {
    0xffff - CsumFold(CsumAdd(diff, old_))
  }

  lemma UpdatePartialSpec(old_: u16, diff: u32)
    ensures Cong(UpdatePartial(old_, diff), old_ as int + diff as int)
    ensures old_ != 0 ==> UpdatePartial(old_, diff) != 0
  {
    var y: int := CsumAdd(diff, old_);
    CsumAddSpec(diff, old_);
    CsumFoldSpec(y);
    CongOffset(CsumFold(y), 0 - y, 0xffff);
    CongShift(UpdatePartial(old_, diff), 0xffff + y, -1);
    CongTrans(UpdatePartial(old_, diff), y, diff as int + old_ as int);
  }

  // ---- the checksum as a property

  /** The 16-bit value that complements a total, all ones only for nothing at all. */
  ghost predicate IsCsum(c: u16, t: nat) {
    Cong(c, 0 - t as int) && (c == 0xffff <==> t == 0)
  }

  /** The checksum of a total. `CsumIsReference` says it is what folding and complementing give;
      stated as a property it keeps the folding out of other proofs. */
  ghost function Csum(t: nat): (c: u16)
    ensures IsCsum(c, t)
  {
    RefCsumSpec(t);
    assert IsCsum(RefCsum(t), t);
    var c: u16 :| IsCsum(c, t);
    c
  }

  lemma CsumUnique(c: u16, t: nat)
    requires IsCsum(c, t)
    ensures c == Csum(t)
  {
    CongSym(Csum(t), 0 - t as int);
    CongTrans(c, 0 - t as int, Csum(t));
    if t > 0 {
      CongUnique(c, Csum(t));
    }
  }

  lemma CsumIsReference(t: nat)
    ensures Csum(t) == RefCsum(t)
  {
    RefCsumSpec(t);
    CsumUnique(RefCsum(t), t);
  }

  // ---- verification

  /** A message verifies with its pseudo-header: its ones'-complement sum is zero without being
      empty. */
  ghost predicate Verifies(pseudo: bytes, message: bytes) {
    Sum16(pseudo) + Sum16(message) > 0 && Cong(Sum16(pseudo) + Sum16(message), 0)
  }

  /** That is the reference verdict: the folded, complemented sum is zero. */
  lemma VerifiesIsReference(pseudo: bytes, message: bytes)
    ensures Verifies(pseudo, message) <==> RefCsum(Sum16(pseudo) + Sum16(message)) == 0
  {
    RefCsumSpec(Sum16(pseudo) + Sum16(message));
  }

  lemma VerifiesSpec(pseudo: bytes, message: bytes)
    ensures Verifies(pseudo, message) <==>
            Cong(Le(pseudo) + Le(message), 0) && Le(pseudo) + Le(message) > 0
  {
    Sum16IsSwappedLe(pseudo);
    Sum16IsSwappedLe(message);
    CongAdd(Sum16(pseudo), 0x100 * Le(pseudo), Sum16(message), 0x100 * Le(message));
    CongRefl(0);
    SwapCong(Le(pseudo) + Le(message), 0, Sum16(pseudo) + Sum16(message), 0);
  }
}
