/** Big-endian integers and variable-length integers in byte strings. */
module Bytes {

  type byte = x: int | 0 <= x < 256

  function Get2(d: seq<byte>, a: nat): (r: nat)
    requires a + 2 <= |d|
    ensures r < 0x1_0000
  {
    (d[a] as int) * 256 + d[a + 1]
  }

  /** Stores the low 16 bits. */
  function Put2(d: seq<byte>, a: nat, v: nat): (r: seq<byte>)
    requires a + 2 <= |d|
    ensures |r| == |d|
  {
    d[a := (v / 256) % 256][a + 1 := v % 256]
  }

  function Get4(d: seq<byte>, a: nat): (r: nat)
    requires a + 4 <= |d|
    ensures r < 0x1_0000_0000
  {
    Get2(d, a) * 0x1_0000 + Get2(d, a + 2)
  }

  function Put4(d: seq<byte>, a: nat, v: nat): (r: seq<byte>)
    requires a + 4 <= |d|
    ensures |r| == |d|
  {
    Put2(Put2(d, a, v / 0x1_0000), a + 2, v)
  }

  lemma Get2Put2(d: seq<byte>, a: nat, v: nat)
    requires a + 2 <= |d|
    ensures Get2(Put2(d, a, v), a) == v % 0x1_0000
    ensures forall b :: 0 <= b && b + 2 <= |d| && (b + 2 <= a || a + 2 <= b) ==> Get2(Put2(d, a, v), b) == Get2(d, b)
  {
    ModParts(v);
  }

  lemma ModParts(v: nat)
    ensures (v / 256) % 256 * 256 + v % 256 == v % 0x1_0000
  {
    var q := v / 0x1_0000;
    assert v == q * 0x1_0000 + v % 0x1_0000;
    assert v / 256 == q * 256 + (v % 0x1_0000) / 256;
  }

  lemma Get4Put4(d: seq<byte>, a: nat, v: nat)
    requires a + 4 <= |d| && v < 0x1_0000_0000
    ensures Get4(Put4(d, a, v), a) == v
    ensures forall b :: 0 <= b && b + 4 <= |d| && (b + 4 <= a || a + 4 <= b) ==> Get4(Put4(d, a, v), b) == Get4(d, b)
  {
    Get2Put2(d, a, v / 0x1_0000);
    Get2Put2(Put2(d, a, v / 0x1_0000), a + 2, v);
  }

  function Zeros(n: nat): (s: seq<byte>)
    ensures |s| == n && forall i :: 0 <= i < n ==> s[i] == 0
  {
    seq(n, _ => 0)
  }

  /** d with s in place of the bytes at a. */
  function Over(d: seq<byte>, a: nat, s: seq<byte>): (r: seq<byte>)
    requires a + |s| <= |d|
    ensures |r| == |d|
    ensures forall i :: 0 <= i < |d| ==> r[i] == if a <= i < a + |s| then s[i - a] else d[i]
  {
    d[..a] + s + d[a + |s|..]
  }

  /** The four bytes of a page number. */
  function Bytes4(v: nat): (s: seq<byte>)
    ensures |s| == 4
  {
    [v / 0x100_0000 % 256, v / 0x1_0000 % 256, v / 256 % 256, v % 256]
  }

  lemma Bytes4Reads(v: nat, d: seq<byte>, a: nat)
    requires v < 0x1_0000_0000 && a + 4 <= |d| && d[a..a + 4] == Bytes4(v)
    ensures Get4(d, a) == v
  {
    assert d[a] == d[a..a + 4][0] && d[a + 1] == d[a..a + 4][1] && d[a + 2] == d[a..a + 4][2] && d[a + 3] == d[a..a + 4][3];
    ModParts(v / 0x1_0000);
    ModParts(v);
    assert v / 0x1_0000 / 256 == v / 0x100_0000;
  }

  /** Bytes lo .. hi-1 read the same in both. */
  ghost predicate SameOn(d: seq<byte>, d': seq<byte>, lo: nat, hi: nat) {
    |d'| == |d| && hi <= |d| && forall b :: lo <= b < hi ==> d'[b] == d[b]
  }

  // ----- variable-length integers -----

  /** The length of the integer that starts s: up to the first byte below 128, but at most 9 bytes. */
  function VarintLen(s: seq<byte>): (n: nat)
    ensures n <= |s| && n <= 9
    ensures s != [] ==> n > 0
  {
    LenFrom(s, 0)
  }

  function LenFrom(s: seq<byte>, k: nat): (n: nat)
    requires k <= |s| && k <= 9
    ensures k <= n <= |s| && n <= 9
    ensures k < |s| && k < 9 ==> k < n
    decreases 9 - k
  {
    if k == |s| || k == 9 then k
    else if k == 8 || s[k] < 128 then k + 1
    else LenFrom(s, k + 1)
  }

  function SevenBits(s: seq<byte>): nat {
    if s == [] then 0 else SevenBits(s[..|s| - 1]) * 128 + s[|s| - 1] % 128
  }

  /** All eight bits of a ninth byte count. */
  function VarintValue(s: seq<byte>): nat {
    var n := VarintLen(s);
    if n == 9 then SevenBits(s[..8]) * 256 + s[8] else SevenBits(s[..n])
  }

  /** Only the bytes of the integer matter. */
  lemma VarintPrefix(s: seq<byte>, t: seq<byte>)
    requires VarintLen(s) <= |t| && s[..VarintLen(s)] == t[..VarintLen(s)] && s != []
    requires VarintLen(s) < 9 ==> s[VarintLen(s) - 1] < 128
    ensures VarintLen(t) == VarintLen(s) && VarintValue(t) == VarintValue(s)
  {
    LenPrefix(s, t, 0);
    var n := VarintLen(s);
    if n == 9 { assert s[..8] == s[..9][..8] == t[..9][..8] == t[..8] && s[8] == s[..9][8] == t[..9][8]; }
  }

  lemma {:induction false} LenPrefix(s: seq<byte>, t: seq<byte>, k: nat)
    requires k < |s| && k < 9 && LenFrom(s, k) <= |t| && s[..LenFrom(s, k)] == t[..LenFrom(s, k)]
    requires LenFrom(s, k) < 9 ==> s[LenFrom(s, k) - 1] < 128
    ensures k <= |t| && LenFrom(t, k) == LenFrom(s, k)
    decreases 9 - k
  {
    var n := LenFrom(s, k);
    assert s[k] == s[..n][k] == t[..n][k] == t[k];
    if !(k == 8 || s[k] < 128) && k + 1 < |s| { LenPrefix(s, t, k + 1); }
  }

  /** w in groups of seven bits, every byte marked as not the last. */
  function Marked(w: nat): (s: seq<byte>) {
    if w == 0 then [] else Marked(w / 128) + [w % 128 + 128]
  }

  function MarkedN(w: nat, n: nat): (s: seq<byte>)
    ensures |s| == n
  {
    if n == 0 then [] else MarkedN(w / 128, n - 1) + [w % 128 + 128]
  }

  const TWO56 := 0x100_0000_0000_0000
  const TWO64 := 0x1_0000_0000_0000_0000

  function PutVarint(v: nat): seq<byte>
    requires v < TWO64
  {
    if v >= TWO56 then MarkedN(v / 256, 8) + [v % 256] else Marked(v / 128) + [v % 128]
  }

  ghost predicate AllMarked(s: seq<byte>) { forall i :: 0 <= i < |s| ==> s[i] >= 128 }

  function Pow128(n: nat): nat { if n == 0 then 1 else 128 * Pow128(n - 1) }

  lemma {:induction false} MarkedReads(w: nat, n: nat)
    requires w < Pow128(n)
    ensures AllMarked(Marked(w)) && SevenBits(Marked(w)) == w && |Marked(w)| <= n
    decreases n
  {
    if w != 0 {
      MarkedReads(w / 128, n - 1);
      assert Marked(w)[..|Marked(w)| - 1] == Marked(w / 128);
    }
  }

  lemma {:induction false} MarkedNReads(w: nat, n: nat)
    requires w < Pow128(n)
    ensures AllMarked(MarkedN(w, n)) && SevenBits(MarkedN(w, n)) == w
    decreases n
  {
    if n != 0 {
      MarkedNReads(w / 128, n - 1);
      assert MarkedN(w, n)[..n - 1] == MarkedN(w / 128, n - 1);
    }
  }

  lemma {:induction false} LenOfMarked(s: seq<byte>, m: nat, k: nat)
    requires k <= m < |s| && m <= 8 && AllMarked(s[..m]) && (m == 8 || s[m] < 128)
    ensures LenFrom(s, k) == m + 1
    decreases m - k
  {
    if k < m {
      assert s[k] == s[..m][k];
      LenOfMarked(s, m, k + 1);
    }
  }

  lemma NineBytes(v: nat, rest: seq<byte>)
    requires TWO56 <= v < TWO64
    ensures var s := PutVarint(v) + rest; VarintLen(s) == 9 && VarintValue(s) == v
  {
    var s := PutVarint(v) + rest;
    assert Pow128(8) == TWO56;
    MarkedNReads(v / 256, 8);
    assert s[..8] == MarkedN(v / 256, 8);
    LenOfMarked(s, 8, 0);
  }

  lemma FewBytes(v: nat, rest: seq<byte>)
    requires v < TWO56
    ensures var s, n := PutVarint(v) + rest, |PutVarint(v)|;
      VarintLen(s) == n < 9 && VarintValue(s) == v && s[n - 1] < 128
  {
    var s, m := PutVarint(v) + rest, |Marked(v / 128)|;
    assert Pow128(7) == 0x2_0000_0000_0000;
    MarkedReads(v / 128, 7);
    assert s[..m] == Marked(v / 128);
    LenOfMarked(s, m, 0);
    assert s[..m + 1] == PutVarint(v);
    assert PutVarint(v)[..m] == Marked(v / 128);
  }

  /** Writing an integer and reading it back, whatever follows it. */
  lemma VarintRoundTrip(v: nat, rest: seq<byte>)
    requires v < TWO64
    ensures var s, n := PutVarint(v) + rest, |PutVarint(v)|;
      VarintLen(s) == n <= 9 && VarintValue(s) == v && (n < 9 ==> s[n - 1] < 128)
  {
    if v >= TWO56 { NineBytes(v, rest); } else { FewBytes(v, rest); }
  }
}
