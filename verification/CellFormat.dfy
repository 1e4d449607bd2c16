/** The header of a cell and the split of its payload between the page and an overflow chain. */
module CellFormat {
  import opened Arith
  import opened Bytes

  /** What the flags of a page say: a table page carries data only when it is a leaf. */
  datatype Format = Format(intKey: bool, leaf: bool, usable: nat) {
    function ChildPtrSize(): nat { if leaf then 0 else 4 }
    predicate HasData() { intKey && leaf }
    predicate Sane() { 480 <= usable <= 65536 }

    function MinLocal(): (m: nat)
      requires Sane()
      ensures m < usable
    {
      (usable - 12) * 32 / 255 - 23
    }

    function MaxLocal(): (m: nat)
      requires Sane()
      ensures MinLocal() <= m < usable
    {
      if intKey then usable - 35 else (usable - 12) * 64 / 255 - 23
    }
  }

  datatype CellInfo = CellInfo(nKey: nat, nData: nat, nPayload: nat, nHeader: nat, nLocal: nat, iOverflow: nat, nSize: nat)

  function Varint32(s: seq<byte>): nat {
    var v := VarintValue(s);
    if v > 0xffff_ffff then 0xffff_ffff else v
  }

  /** Payload bytes kept on the page: everything if it fits, else so much that the overflow pages come out full,
      or the minimum where that would be too much. */
  function Local(f: Format, nPayload: nat): (n: nat)
    requires f.Sane()
    ensures n <= nPayload && n <= f.MaxLocal()
    ensures nPayload > f.MaxLocal() ==> f.MinLocal() <= n < nPayload
  {
    if nPayload <= f.MaxLocal() then nPayload
    else
      var surplus := f.MinLocal() + (nPayload - f.MinLocal()) % (f.usable - 4);
      if surplus <= f.MaxLocal() then surplus else f.MinLocal()
  }

  /** With k bytes on the page, the rest fills its overflow pages to the last byte. */
  predicate FillsPages(f: Format, nPayload: nat, k: nat)
    requires f.Sane()
  {
    k <= nPayload && (nPayload - k) % (f.usable - 4) == 0
  }

  /** n bytes of a payload belong on the page: all that may be, or the number within bounds that leaves no overflow page partly empty, or,
      if there is none, the least. */
  ghost predicate Divided(f: Format, nPayload: nat, n: nat)
    requires f.Sane()
  {
    if nPayload <= f.MaxLocal() then n == nPayload
    else
      && (forall k: nat :: f.MinLocal() <= k <= f.MaxLocal() && FillsPages(f, nPayload, k) ==> n == k)
      && ((forall k: nat :: f.MinLocal() <= k <= f.MaxLocal() ==> !FillsPages(f, nPayload, k)) ==> n == f.MinLocal())
  }

  /** The split the file format asks for. */
  lemma LocalDivides(f: Format, nPayload: nat)
    requires f.Sane()
    ensures Divided(f, nPayload, Local(f, nPayload))
  {
    if nPayload > f.MaxLocal() {
      LocalBounds(f);
      var r := LocalRest(f, nPayload);
      hide Local, FillsPages, Format.MinLocal, Format.MaxLocal;
    }
  }

  lemma LocalRest(f: Format, nPayload: nat) returns (r: nat)
    requires f.Sane() && nPayload > f.MaxLocal()
    ensures FillsPages(f, nPayload, f.MinLocal() + r)
    ensures forall k: nat :: f.MinLocal() <= k < f.MinLocal() + (f.usable - 4) && FillsPages(f, nPayload, k) ==> k == f.MinLocal() + r
    ensures Local(f, nPayload) == f.MinLocal() + if f.MinLocal() + r <= f.MaxLocal() then r else 0
  {
    hide Format.MinLocal, Format.MaxLocal;
    var m, u := f.MinLocal(), f.usable - 4;
    r := (nPayload - m) % u;
    RestFills(nPayload, m, u);
    forall k: nat | m <= k < m + u && FillsPages(f, nPayload, k) ensures k == m + r { TheRest(nPayload, m, k, u); }
  }

  lemma TheRest(n: nat, m: nat, k: nat, u: nat)
    requires u > 0 && m <= k < m + u && k <= n && (n - k) % u == 0
    ensures k == m + (n - m) % u
  {
    Quotient(n - m, u);
    Quotient(n - k, u);
    SameRest((n - m) / u, (n - m) % u, (n - k) / u, k - m, u);
  }

  lemma RestFills(n: nat, m: nat, u: nat)
    requires u > 0 && m <= n
    ensures m + (n - m) % u <= n && (n - (m + (n - m) % u)) % u == 0
  {
    Quotient(n - m, u);
    Multiple((n - m) / u, u);
  }

  lemma Quotient(a: nat, u: nat)
    requires u > 0
    ensures a == a / u * u + a % u && a % u < u
  {
  }

  lemma Multiple(q: nat, u: nat)
    requires u > 0
    ensures (q * u) % u == 0
  {
    Quotient(q * u, u);
    if q * u / u < q { MulMono(q * u / u + 1, q, u); }
    if q * u / u > q { MulMono(q + 1, q * u / u, u); }
  }

  lemma SameRest(q: nat, r: nat, q': nat, r': nat, u: nat)
    requires r < u && r' < u && q * u + r == q' * u + r'
    ensures r == r'
  {
    if q < q' { MulMono(q + 1, q', u); }
    if q' < q { MulMono(q' + 1, q, u); }
  }

  /** The bounds are the largest numbers such that 23 more are at most 32 and 64 parts of 255 of what cells can share on an interior page; a
      table leaf keeps all that leaves room for the header of one cell. */
  lemma LocalBounds(f: Format)
    requires f.Sane()
    ensures 255 * (f.MinLocal() + 23) <= 32 * (f.usable - 12) < 255 * (f.MinLocal() + 24)
    ensures !f.intKey ==> 255 * (f.MaxLocal() + 23) <= 64 * (f.usable - 12) < 255 * (f.MaxLocal() + 24)
    ensures f.intKey ==> f.MaxLocal() + 35 == f.usable
    ensures f.MaxLocal() - f.MinLocal() < f.usable - 4
  {
  }

  function Skip(s: seq<byte>, n: nat): seq<byte> { if n <= |s| then s[n..] else [] }

  function ParseCell(f: Format, s: seq<byte>): CellInfo
    requires f.Sane()
  {
    var s0 := Skip(s, f.ChildPtrSize());
    var dataLen := if f.HasData() then VarintLen(s0) else 0;
    var s1 := Skip(s0, dataLen);
    var nKey := if f.intKey then VarintValue(s1) else Varint32(s1);
    var nPayload := if f.HasData() then Varint32(s0) else if f.intKey then 0 else nKey;
    var n := f.ChildPtrSize() + dataLen + VarintLen(s1);
    var nLocal := Local(f, nPayload);
    if nPayload <= f.MaxLocal() then
      CellInfo(nKey, if f.intKey then nPayload else 0, nPayload, n, nPayload, 0, if n + nPayload < 4 then 4 else n + nPayload)
    else
      CellInfo(nKey, if f.intKey then nPayload else 0, nPayload, n, nLocal, n + nLocal, n + nLocal + 4)
  }

  /** Every cell is split that way, and the number of the first overflow page follows the bytes on the page. */
  lemma ParseDivides(f: Format, s: seq<byte>)
    requires f.Sane()
    ensures var info := ParseCell(f, s);
      && Divided(f, info.nPayload, info.nLocal)
      && info.iOverflow == if info.nPayload > f.MaxLocal() then info.nHeader + info.nLocal else 0
  {
    hide Local, Divided, VarintLen, VarintValue, Format.MinLocal, Format.MaxLocal, Format.HasData;
    var info := ParseCell(f, s);
    LocalDivides(f, info.nPayload);
    AllLocal(f, info.nPayload);
  }

  lemma AllLocal(f: Format, nPayload: nat)
    requires f.Sane()
    ensures nPayload <= f.MaxLocal() ==> Local(f, nPayload) == nPayload
  {
  }

  /** The size alone, found without the key. */
  function CellSize(f: Format, s: seq<byte>): (n: nat)
    requires f.Sane()
    ensures n >= 4
  {
    var s0 := Skip(s, f.ChildPtrSize());
    var dataLen := if f.HasData() || !f.intKey then VarintLen(s0) else 0;
    var nSize := if f.HasData() || !f.intKey then Varint32(s0) else 0;
    var keyLen := if f.intKey then VarintLen(Skip(s0, dataLen)) else 0;
    var kept := if nSize > f.MaxLocal() then Local(f, nSize) + 4 else nSize;
    var n := kept + f.ChildPtrSize() + dataLen + keyLen;
    if n < 4 then 4 else n
  }

  /** The two ways to find the size of a cell agree. */
  lemma SizeAgrees(f: Format, s: seq<byte>)
    requires f.Sane()
    ensures CellSize(f, s) == ParseCell(f, s).nSize
    ensures ParseCell(f, s).nHeader + ParseCell(f, s).nLocal <= CellSize(f, s)
  {
  }

  /** The integer that starts s ends within s. */
  predicate Whole(s: seq<byte>) {
    s != [] && (VarintLen(s) < 9 ==> s[VarintLen(s) - 1] < 128)
  }

  /** The byte string is one cell. */
  predicate IsCell(f: Format, c: seq<byte>)
    requires f.Sane()
  {
    var s0 := Skip(c, f.ChildPtrSize());
    && CellSize(f, c) == |c|
    && Whole(s0) && (f.HasData() ==> Whole(Skip(s0, VarintLen(s0))))
  }

  /** The byte string starts with a cell, and may hold more. */
  predicate StartsCell(f: Format, c: seq<byte>)
    requires f.Sane()
  {
    CellSize(f, c) <= |c| && IsCell(f, c[..CellSize(f, c)])
  }

  /** That cell. */
  function FirstCell(f: Format, c: seq<byte>): (r: seq<byte>)
    requires f.Sane() && StartsCell(f, c)
    ensures IsCell(f, r) && 4 <= |r| <= |c| && r <= c
  {
    c[..CellSize(f, c)]
  }

  lemma WholeExtends(s: seq<byte>, rest: seq<byte>)
    requires Whole(s)
    ensures VarintLen(s + rest) == VarintLen(s) && VarintValue(s + rest) == VarintValue(s)
  {
    assert (s + rest)[..VarintLen(s)] == s[..VarintLen(s)];
    VarintPrefix(s, s + rest);
  }

  /** A cell tells where it ends, whatever follows it on the page. */
  lemma CellDelimited(f: Format, c: seq<byte>, rest: seq<byte>)
    requires f.Sane() && IsCell(f, c)
    ensures CellSize(f, c + rest) == |c| && ParseCell(f, c + rest) == ParseCell(f, c)
  {
    hide VarintLen, VarintValue, Local;
    var s0 := Skip(c, f.ChildPtrSize());
    assert Skip(c + rest, f.ChildPtrSize()) == s0 + rest;
    WholeExtends(s0, rest);
    if f.HasData() {
      assert Skip(s0 + rest, VarintLen(s0)) == Skip(s0, VarintLen(s0)) + rest;
      WholeExtends(Skip(s0, VarintLen(s0)), rest);
    } else {
      assert Skip(s0 + rest, 0) == s0 + rest && Skip(s0, 0) == s0;
    }
  }

  lemma SkipPrefix(a: seq<byte>, b: seq<byte>, k: nat, n: nat)
    requires k <= n <= |a| && n <= |b| && a[..n] == b[..n]
    ensures Skip(a, k)[..n - k] == Skip(b, k)[..n - k]
  {
    assert a[k..][..n - k] == a[..n][k..] && b[k..][..n - k] == b[..n][k..];
  }

  lemma WholePrefix(s: seq<byte>, t: seq<byte>, n: nat)
    requires Whole(s) && VarintLen(s) <= n <= |s| && n <= |t| && s[..n] == t[..n]
    ensures VarintLen(t) == VarintLen(s) && VarintValue(t) == VarintValue(s)
  {
    assert s[..VarintLen(s)] == s[..n][..VarintLen(s)] && t[..VarintLen(s)] == t[..n][..VarintLen(s)];
    VarintPrefix(s, t);
  }

  /** Only the header of a cell is parsed. */
  lemma ParsePrefix(f: Format, c: seq<byte>, d: seq<byte>)
    requires f.Sane() && IsCell(f, c) && |d| == |c| && d[..ParseCell(f, c).nHeader] == c[..ParseCell(f, c).nHeader]
    ensures ParseCell(f, d) == ParseCell(f, c)
  {
    hide VarintLen, VarintValue, Local, Whole;
    var k, n := f.ChildPtrSize(), ParseCell(f, c).nHeader;
    SizeAgrees(f, c);
    var s0, t0 := Skip(c, k), Skip(d, k);
    SkipPrefix(c, d, k, n);
    WholePrefix(s0, t0, n - k);
    if f.HasData() {
      SkipPrefix(s0, t0, VarintLen(s0), n - k);
      WholePrefix(Skip(s0, VarintLen(s0)), Skip(t0, VarintLen(s0)), n - k - VarintLen(s0));
    } else {
      assert Skip(s0, 0) == s0 && Skip(t0, 0) == t0;
    }
  }
}
