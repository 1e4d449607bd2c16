/** Two databases cut into pages of different power-of-two sizes, seen as one string of bytes. */
module BackupBytes {
  import opened Bytes

  /** The bytes from here on are used for file locks: the page holding it is never part of a database. */
  const PENDING_BYTE: nat := 0x4000_0000

  predicate PageSize(n: nat) {
    n == 512 || n == 1024 || n == 2048 || n == 4096 || n == 8192 || n == 16384 || n == 32768 || n == 65536
  }

  lemma SizesPositive(s: nat, d: nat)
    requires PageSize(s) && PageSize(d)
    ensures s >= 512 && d >= 512
  {
  }

  function PageOf(o: nat, sz: nat): nat
    requires sz > 0
  {
    o / sz + 1
  }

  function Base(pg: nat, sz: nat): nat
    requires pg > 0
  {
    (pg - 1) * sz
  }

  function Pending(sz: nat): nat
    requires sz > 0
  {
    PENDING_BYTE / sz + 1
  }

  predicate PagesOf(d: map<nat, seq<byte>>, sz: nat) {
    forall p :: p in d ==> |d[p]| == sz
  }

  /** The byte at offset o; a page never written reads as zeros. */
  function At(d: map<nat, seq<byte>>, sz: nat, o: nat): byte
    requires sz > 0 && PagesOf(d, sz)
  {
    if PageOf(o, sz) in d then d[PageOf(o, sz)][o % sz] else 0
  }

  // ----- arithmetic -----

  lemma SizesDivide(s: nat, d: nat)
    requires PageSize(s) && PageSize(d)
    ensures s <= d ==> d % s == 0
    ensures PENDING_BYTE % s == 0
  {
  }

  lemma MultiplesApart(j: nat, k: nat, n: nat)
    requires j < k
    ensures j * n + n <= k * n
  {
    assert (k - j - 1) * n >= 0;
    assert k * n == j * n + n + (k - j - 1) * n;
  }

  lemma QuotientUnique(a: nat, b: nat, q: nat, r: nat)
    requires b > 0 && a == q * b + r && r < b
    ensures a / b == q && a % b == r
  {
    var q': nat, r': nat := a / b, a % b;
    assert a == q' * b + r';
    if q < q' { MultiplesApart(q, q', b); } else if q' < q { MultiplesApart(q', q, b); }
  }

  lemma InPage(o: nat, pg: nat, sz: nat)
    requires sz > 0 && pg > 0
    ensures PageOf(o, sz) == pg <==> Base(pg, sz) <= o < Base(pg, sz) + sz
    ensures PageOf(o, sz) == pg ==> o % sz == o - Base(pg, sz)
    ensures PageOf(o, sz) < pg <==> o < Base(pg, sz)
  {
    var q: nat, r: nat := o / sz, o % sz;
    assert o == q * sz + r;
    if q < pg - 1 { MultiplesApart(q, pg - 1, sz); } else if pg - 1 < q { MultiplesApart(pg - 1, q, sz); }
  }

  lemma BaseAtLeast(pg: nat, sz: nat)
    requires pg > 1
    ensures Base(pg, sz) >= sz
  {
    assert Base(pg, sz) == sz + (pg - 2) * sz;
  }

  lemma BaseMultiple(pg: nat, sz: nat)
    requires sz > 0 && pg > 0
    ensures Base(pg, sz) % sz == 0
  {
    QuotientUnique(Base(pg, sz), sz, pg - 1, 0);
  }

  /** A stretch of n bytes that starts at a multiple of n lies in one page of m bytes when n divides m. */
  lemma StretchInPage(a: nat, n: nat, m: nat, o: nat)
    requires n > 0 && m > 0 && m % n == 0 && a % n == 0 && a <= o < a + n
    ensures PageOf(o, m) == PageOf(a, m) && o % m == a % m + (o - a) && a % m + n <= m
  {
    var k: nat, j: nat := m / n, a / n;
    assert m == k * n && a == j * n;
    var q: nat, r: nat := Split(j, k, n, a, m);
    QuotientUnique(a, m, q, r);
    QuotientUnique(o, m, q, r + (o - a));
  }

  lemma Split(j: nat, k: nat, n: nat, a: nat, m: nat) returns (q: nat, r: nat)
    requires n > 0 && m > 0 && m == k * n && a == j * n
    ensures a == q * m + r && r + n <= m
  {
    if k == 0 { assert false; }
    q := j / k;
    var i: nat := j % k;
    r := i * n;
    Regroup(q, k, i, n);
    MultiplesApart(i, k, n);
  }

  lemma Regroup(q: nat, k: nat, r: nat, n: nat)
    ensures (q * k + r) * n == q * (k * n) + r * n
  {
  }

  lemma MultipleOfMultiple(a: nat, n: nat, m: nat)
    requires n > 0 && m > 0 && m % n == 0 && a % m == 0
    ensures a % n == 0
  {
    var k, j := m / n, a / m;
    assert m == k * n && a == j * m;
    assert j * (k * n) == (j * k) * n;
    QuotientUnique(a, n, j * k, 0);
  }

  lemma NextMultiple(a: nat, n: nat)
    requires n > 0 && a % n == 0
    ensures (a + n) % n == 0 && PageOf(a + n, n) == PageOf(a, n) + 1
  {
    QuotientUnique(a + n, n, a / n + 1, 0);
  }

  /** Multiples of n below a multiple of n are n below it. */
  lemma MultipleGap(a: nat, e: nat, n: nat)
    requires n > 0 && a % n == 0 && e % n == 0 && a < e
    ensures a + n <= e
  {
    var j: nat, k: nat := a / n, e / n;
    assert a == j * n && e == k * n;
    if j < k { MultiplesApart(j, k, n); } else if k < j { MultiplesApart(k, j, n); }
  }

  /** The pending pages of both sizes start at the same byte. */
  lemma PendingStart(s: nat)
    requires PageSize(s)
    ensures Base(Pending(s), s) == PENDING_BYTE
  {
    SizesDivide(s, s);
  }

  lemma WrittenByte(d: map<nat, seq<byte>>, sz: nat, p: nat, a: nat, b: seq<byte>, page: seq<byte>, o: nat)
    requires sz > 0 && PagesOf(d, sz) && a + |b| <= sz && |page| == sz
    requires if p in d then page == d[p] else page == Zeros(sz)
    ensures PagesOf(d[p := Over(page, a, b)], sz)
    ensures At(d[p := Over(page, a, b)], sz, o) == if PageOf(o, sz) == p && a <= o % sz < a + |b| then b[o % sz - a] else At(d, sz, o)
  {
  }
}
