/** Every frame the programs accept has a translation, so statements about all translations of an
    accepted frame are about something. */
module Existence {
  import opened Bytes
  import opened Checksum
  import opened Headers
  import opened Kernel
  import opened Counters
  import opened EgressSpec
  import opened IngressSpec
  import opened EgressTheorems
  import opened IngressTheorems
  import UdpChecksum

  /** In every mode there is a value the field moves to: the one the helper computes. */
  lemma FieldMoves(mode: Mode, field: u16, delta: int, mangled: bool) returns (v: u16)
    ensures FieldMoved(mode, field, v, delta, mangled)
  {
    var diff: u32 := delta % 0xffff;
    CongMod(delta);
    v := NewField(mode, field, diff, mangled, true);
    NewFieldMoves(mode, field, diff, delta, mangled, true);
  }

  lemma PatchExists(mode: Mode, a: bytes, off: nat, delta: int, mangled: bool) returns (b: bytes)
    requires off + 2 <= |a|
    ensures FieldPatched(mode, a, b, off, delta, mangled)
  {
    var v := FieldMoves(mode, GetLe16(a, off), delta, mangled);
    b := Splice(a, off, Le16(v));
    assert GetLe16(b, off) == v;
  }

  // ---- egress

  lemma EgressTransportExists(cfg: Config, mode: Mode, f: bytes, a: bytes) returns (b: bytes)
    requires Has4(f) && Ihl(f) <= TotLen(f) && L4Decision(f, a) == Translate
    ensures L4Rel(cfg, mode, f, a, b)
  {
    b := a;
    if Off4(f) != 0 {
      return;
    }
    if Proto4(f) == TCP {
      b := PatchExists(mode, a, 16, AddrDelta(cfg, f), false);
    } else if Proto4(f) == UDP {
      if GetLe16(a, 6) != 0 || PseudoIsZero(f) {
        b := PatchExists(mode, a, 6, AddrDelta(cfg, f), true);
      } else {
        b := Splice(a, 6, Le16(UdpChecksum.MangledCsum(
                                 Le(Pseudo6(cfg.pod6, Mapped(cfg, Dst4(f)), UDP, L4Len(f))) + Le(a[..L4Len(f)]))));
      }
    } else if Proto4(f) == ICMP {
      b := PatchExists(mode, a[0 := EchoType6(a[0])], 2, EchoDelta(cfg, f, a[0]), false);
    }
  }

  lemma EgressTranslation(cfg: Config, mode: Mode, f: bytes) returns (g: bytes)
    requires Decision(cfg, f) == Translate
    ensures Rel(cfg, mode, f, g)
  {
    var b := EgressTransportExists(cfg, mode, f, Rest4(f));
    g := Head(cfg, f) + b;
    assert g[|Head(cfg, f)|..] == b;
  }

  /** The verdict is to translate exactly when there is a translation. */
  lemma EgressHasTranslation(cfg: Config, mode: Mode, f: bytes)
    ensures Decision(cfg, f) == Translate <==> exists g :: Rel(cfg, mode, f, g)
  {
    if Decision(cfg, f) == Translate {
      var g := EgressTranslation(cfg, mode, f);
    }
  }

  // ---- ingress

  /** Any outcome for the quoted bytes belongs to some translation of the error. */
  lemma ErrorExists(cfg: Config, mode: Mode, f: bytes, a: bytes, r: bytes) returns (b: bytes)
    requires |f| >= 62 && L4Len6(f) >= 0 && |a| >= 8 && ErrorDecision(cfg, a) == Translate
    requires QuoteRel(cfg, a, Quoted(a), r, true)
    ensures ErrorRel(cfg, mode, f, a, b, true) && |b| >= 28 && b[28..] == r
  {
    var n := NewError(cfg, a);
    var c := FieldMoves(mode, 0, Le(n) + Le(r) - Le(IcmpPseudo(f)) - Le(a), false);
    var h := Splice(n, 2, Le16(c));
    b := h + r;
    assert b[..28] == h && b[28..] == r;
    assert GetLe16(b, 2) == GetLe16(h, 2) == c;
    assert |r| == |Quoted(a)|;
  }

  /** A helper answer gives an embedded checksum. */
  lemma QuotePatched(q: bytes, off: nat, d: u32, delta: int) returns (r: bytes)
    requires off + 2 <= |q| && Cong(d, delta)
    ensures FieldReplaced(q, r, off, delta)
    ensures PlainPatch(d, GetLe16(q, off), GetLe16(r, off), delta)
  {
    var oc := GetLe16(q, off);
    var nc := CsumFold((d as int + 0xffff - oc as int) % 0x1_0000_0000);
    r := Splice(q, off, Le16(nc));
    assert GetLe16(r, off) == nc;
    assert PlainPatch(d, oc, nc, delta);
  }

  /** The quoted bytes before their field is patched. */
  function Unpatched(a: bytes): bytes
    requires InComplete(a)
  {
    if QuotesEcho(a) then Quoted(a)[0 := EchoType4(Quoted(a)[0])] else Quoted(a)
  }

  lemma QuoteExists(cfg: Config, a: bytes) returns (r: bytes)
    requires InComplete(a)
    ensures QuoteRel(cfg, a, Quoted(a), r, true)
  {
    r := Quoted(a);
    if Patches(a) {
      CongMod(PatchDelta(cfg, a));
      r := QuotePatched(Unpatched(a), PatchOffset(a), PatchDelta(cfg, a) % 0xffff, PatchDelta(cfg, a));
    }
  }

  lemma IngressTransportExists(cfg: Config, mode: Mode, f: bytes, a: bytes) returns (b: bytes)
    requires |f| >= 62 && L4Len6(f) >= 0 && L4Decision6(cfg, f, a) == Translate
    ensures L4Rel6(cfg, mode, f, a, b, true)
  {
    b := a;
    if IsFrag6(f) && Off6(f) != 0 {
      return;
    }
    if Upper6(f) == TCP {
      b := PatchExists(mode, a, 16, AddrDelta6(cfg, f), false);
    } else if Upper6(f) == UDP {
      b := PatchExists(mode, a, 6, AddrDelta6(cfg, f), true);
    } else if Upper6(f) == ICMPV6 {
      if IsEcho6(a[0]) {
        b := PatchExists(mode, a[0 := EchoType4(a[0])], 2, EchoDelta6(f, a[0]), false);
      } else {
        var r := QuoteExists(cfg, a);
        b := ErrorExists(cfg, mode, f, a, r);
      }
    }
  }

  lemma Assembled(cfg: Config, mode: Mode, f: bytes, b: bytes) returns (g: bytes)
    requires |f| >= 62 && Decision6(cfg, f) == Translate && L4Rel6(cfg, mode, f, Rest6(f), b, true)
    ensures Rel6(cfg, mode, f, g, true) && g[34..] == b
  {
    var h := Head4(cfg, f, OuterShrink(f, Rest6(f)));
    g := h + b;
    assert g[..34] == h && g[34..] == b;
  }

  lemma IngressTranslation(cfg: Config, mode: Mode, f: bytes) returns (g: bytes)
    requires Decision6(cfg, f) == Translate
    ensures Rel6(cfg, mode, f, g, true)
  {
    var b := IngressTransportExists(cfg, mode, f, Rest6(f));
    g := Assembled(cfg, mode, f, b);
  }

  lemma IngressHasTranslation(cfg: Config, mode: Mode, f: bytes)
    ensures Decision6(cfg, f) == Translate <==> exists g :: Rel6(cfg, mode, f, g, true)
  {
    if Decision6(cfg, f) == Translate {
      var g := IngressTranslation(cfg, mode, f);
    }
  }

  // ---- the embedded checksum

  /** The embedded checksum of a translated error is in the class that undoes the translation of
      the quoted packet, whatever the difference helper answers, exactly when the quoted checksum
      is not below the representative of the difference. Otherwise some answer loses a carry. */
  lemma EmbeddedChecksumExact(cfg: Config, mode: Mode, f: bytes)
    requires Decision6(cfg, f) == Translate && IsError(f, Rest6(f)) && Patches(Rest6(f))
    ensures var a := Rest6(f);
            AlwaysRight(cfg, mode, f, a) <==> Rep(PatchDelta(cfg, a)) <= GetLe16(Quoted(a), PatchOffset(a)) as int
  {
    var a := Rest6(f);
    if Rep(PatchDelta(cfg, a)) > GetLe16(Quoted(a), PatchOffset(a)) as int {
      var g := EmbeddedCanFail(cfg, mode, f, a);
    } else {
      forall g | Rel6(cfg, mode, f, g, true)
        ensures EmbeddedRight(cfg, a, g)
      {
        L4Rel6Length(cfg, mode, f, a, g[34..], true);
        TailOfTail(g, 34, 28);
        EmbeddedNeverFails(cfg, a, g[62..]);
      }
    }
  }

  lemma EmbeddedCanFail(cfg: Config, mode: Mode, f: bytes, a: bytes) returns (g: bytes)
    requires Decision6(cfg, f) == Translate && a == Rest6(f) && IsError(f, a) && Patches(a)
    requires Rep(PatchDelta(cfg, a)) > GetLe16(Quoted(a), PatchOffset(a)) as int
    ensures Rel6(cfg, mode, f, g, true) && !EmbeddedRight(cfg, a, g)
  {
    var r := QuoteCanFail(cfg, a);
    g := ErrorWith(cfg, mode, f, r);
  }

  /** Any outcome for the quoted bytes makes a translation of the frame. */
  lemma ErrorWith(cfg: Config, mode: Mode, f: bytes, r: bytes) returns (g: bytes)
    requires Decision6(cfg, f) == Translate && IsError(f, Rest6(f)) && QuoteRel(cfg, Rest6(f), Quoted(Rest6(f)), r, true)
    ensures Rel6(cfg, mode, f, g, true) && |g| >= 62 && g[62..] == r
  {
    var b := ErrorExists(cfg, mode, f, Rest6(f), r);
    g := Assembled(cfg, mode, f, b);
    TailOfTail(g, 34, 28);
  }

  lemma QuoteCanFail(cfg: Config, a: bytes) returns (r: bytes)
    requires InComplete(a) && Patches(a)
    requires Rep(PatchDelta(cfg, a)) > GetLe16(Quoted(a), PatchOffset(a)) as int
    ensures QuoteRel(cfg, a, Quoted(a), r, true) && |r| >= PatchOffset(a) + 2
    ensures !Cong(GetLe16(r, PatchOffset(a)), GetLe16(Quoted(a), PatchOffset(a)) as int - PatchDelta(cfg, a))
  {
    var q, off, delta := Unpatched(a), PatchOffset(a), PatchDelta(cfg, a);
    var oc := GetLe16(q, off);
    assert oc == GetLe16(Quoted(a), off);
    WrapPossibleExactly(oc, delta);
    var d: u32 :| Cong(d, delta) && d as int + 0xffff - oc as int >= 0x1_0000_0000;
    r := QuotePatched(q, off, d, delta);
    PlainPatchExact(d, oc, GetLe16(r, off), delta);
  }

  lemma EmbeddedNeverFails(cfg: Config, a: bytes, r: bytes)
    requires InComplete(a) && Patches(a) && QuoteRel(cfg, a, Quoted(a), r, true)
    requires Rep(PatchDelta(cfg, a)) <= GetLe16(Quoted(a), PatchOffset(a)) as int
    ensures |r| >= PatchOffset(a) + 2
    ensures Cong(GetLe16(r, PatchOffset(a)), GetLe16(Quoted(a), PatchOffset(a)) as int - PatchDelta(cfg, a))
  {
    var q, off, delta := Unpatched(a), PatchOffset(a), PatchDelta(cfg, a);
    assert GetLe16(q, off) == GetLe16(Quoted(a), off);
    assert FieldReplaced(q, r, off, delta);
    PatchNeverWraps(GetLe16(q, off), GetLe16(r, off), delta);
  }

  /** It is right in every translation of `f`, whose message is `a`. */
  ghost predicate AlwaysRight(cfg: Config, mode: Mode, f: bytes, a: bytes)
    requires InComplete(a) && Patches(a)
  {
    forall g :: Rel6(cfg, mode, f, g, true) ==> EmbeddedRight(cfg, a, g)
  }

  ghost predicate EmbeddedRight(cfg: Config, a: bytes, g: bytes)
    requires InComplete(a) && Patches(a)
  {
    && |g| >= 62 + PatchOffset(a) + 2
    && Cong(GetLe16(g[62..], PatchOffset(a)), GetLe16(Quoted(a), PatchOffset(a)) as int - PatchDelta(cfg, a))
  }
}
