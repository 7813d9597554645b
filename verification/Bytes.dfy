/** Bytes in packet order, the fixed-width integers stored in them, and the three ways the
    translator reshapes a buffer: overwrite, insert, remove. */
module Bytes {

  type byte = x: int | 0 <= x < 0x100
  type bytes = seq<byte>
  type u16 = x: int | 0 <= x < 0x1_0000
  type u32 = x: int | 0 <= x < 0x1_0000_0000

  /** Network order, truncating to 16 bits as `bpf_htons` does with a wider argument. */
  function Be16(v: nat): (r: bytes)
    ensures |r| == 2
  {
    [(v / 0x100) % 0x100, v % 0x100]
  }

  function Be32(v: nat): (r: bytes)
    ensures |r| == 4
  {
    Be16(v / 0x1_0000) + Be16(v)
  }

  function GetBe16(s: bytes, i: nat): u16
    requires i + 2 <= |s|
  {
    0x100 * (s[i] as int) + s[i + 1] as int
  }

  function GetBe32(s: bytes, i: nat): u32
    requires i + 4 <= |s|
  {
    0x1_0000 * (GetBe16(s, i) as int) + GetBe16(s, i + 2) as int
  }

  /** Native order of the little-endian build: how a `__u16` sits in memory. */
  function Le16(v: u16): (r: bytes)
    ensures |r| == 2
  {
    [v % 0x100, v / 0x100]
  }

  function GetLe16(s: bytes, i: nat): u16
    requires i + 2 <= |s|
  {
    s[i] as int + 0x100 * (s[i + 1] as int)
  }

  function GetLe32(s: bytes, i: nat): u32
    requires i + 4 <= |s|
  {
    GetLe16(s, i) as int + 0x1_0000 * (GetLe16(s, i + 2) as int)
  }

  /** Overwrite `|b|` bytes at `off`. */
  function Splice(d: bytes, off: nat, b: bytes): (r: bytes)
    requires off + |b| <= |d|
    ensures |r| == |d|
  {
    d[..off] + b + d[off + |b|..]
  }

  function Insert(d: bytes, off: nat, fill: bytes): (r: bytes)
    requires off <= |d|
    ensures |r| == |d| + |fill|
  {
    d[..off] + fill + d[off..]
  }

  function Remove(d: bytes, off: nat, n: nat): (r: bytes)
    requires off + n <= |d|
    ensures |r| == |d| - n
  {
    d[..off] + d[off + n..]
  }

  lemma Be16RoundTrip(v: u16)
    ensures GetBe16(Be16(v), 0) == v
  {
  }

  lemma Be32RoundTrip(v: u32)
    ensures GetBe32(Be32(v), 0) == v
  {
    Be16RoundTrip(v / 0x1_0000);
    Be16Truncates(v);
    var b := Be32(v);
    assert GetBe16(b, 0) == GetBe16(Be16(v / 0x1_0000), 0);
    assert GetBe16(b, 2) == GetBe16(Be16(v), 0);
  }

  lemma Be16Truncates(v: nat)
    ensures GetBe16(Be16(v), 0) == v % 0x1_0000
  {
    var q, r := v / 0x1_0000, v % 0x1_0000;
    assert v / 0x100 == 0x100 * q + r / 0x100;
  }

  /** Overwriting behind a header leaves the header alone. */
  lemma SpliceTail(pre: bytes, tail: bytes, off: nat, b: bytes)
    requires off + |b| <= |tail|
    ensures Splice(pre + tail, |pre| + off, b) == pre + Splice(tail, off, b)
  {
    assert (pre + tail)[..|pre| + off] == pre + tail[..off];
    assert (pre + tail)[|pre| + off + |b|..] == tail[off + |b|..];
  }

  lemma SliceOfTail(s: bytes, k: nat, i: nat, j: nat)
    requires i <= j && k + j <= |s|
    ensures s[k..][i..j] == s[k + i..k + j]
  {
    var t := s[k..];
    forall m | i <= m < j
      ensures t[m] == s[k + m]
    {
    }
    assert |t[i..j]| == |s[k + i..k + j]|;
  }

  lemma SliceOfHead(s: bytes, k: nat, i: nat, j: nat)
    requires i <= j <= k <= |s|
    ensures s[..k][i..j] == s[i..j]
  {
    var t := s[..k];
    forall m | i <= m < j
      ensures t[m] == s[m]
    {
    }
    assert |t[i..j]| == |s[i..j]|;
  }

  /** Overwriting the byte at `k`. */
  lemma SpliceByte(d: bytes, k: nat, x: byte)
    requires k < |d|
    ensures Splice(d, k, [x])[..k] == d[..k] && Splice(d, k, [x])[k..] == d[k..][0 := x]
  {
    var e := Splice(d, k, [x]);
    assert e == d[..k] + [x] + d[k + 1..];
    assert e[k..] == [x] + d[k + 1..];
  }

  /** What stands before, with and behind an overwritten block. */
  lemma SpliceSides(d: bytes, off: nat, b: bytes, end: nat)
    requires off + |b| <= end <= |d|
    ensures var e := Splice(d, off, b);
            |e| == |d| && e[..off + |b|] == d[..off] + b && e[end..] == d[end..]
  {
  }

  lemma TailOfTail(s: bytes, i: nat, j: nat)
    requires i + j <= |s|
    ensures s[i..][j..] == s[i + j..]
  {
  }
}
