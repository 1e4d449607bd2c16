/** An online backup: pages are copied from a source to a destination database step by step, while the source is written. */
module Backup {
  import opened Arith
  import opened Bytes
  import opened BackupBytes

  datatype Rc = OK | BUSY | READONLY | DONE

  predicate Fatal(rc: Rc) { rc != OK && rc != BUSY }

  /** The bytes [lo, hi) hold data; if the data start the file, hdr, when not empty, is put over bytes 28..31. */
  function Put(was: byte, lo: nat, hi: nat, d: nat, data: seq<byte>, hdr: seq<byte>, o: nat): byte
    requires d > 0 && lo <= hi <= lo + |data|
  {
    if lo == 0 && 32 <= hi && |hdr| == 4 && 28 <= o < 32 then hdr[o - 28]
    else if lo <= o < hi && PageOf(o, d) != Pending(d) then data[o - lo]
    else was
  }

  ghost predicate IsPut(before: map<nat, seq<byte>>, after: map<nat, seq<byte>>, d: nat, lo: nat, hi: nat, data: seq<byte>, hdr: seq<byte>)
    requires d > 0 && lo <= hi <= lo + |data| && PagesOf(before, d) && PagesOf(after, d)
  {
    forall o: nat :: At(after, d, o) == Put(At(before, d, o), lo, hi, d, data, hdr, o)
  }

  lemma PutNothing(m: map<nat, seq<byte>>, d: nat, lo: nat, data: seq<byte>, hdr: seq<byte>)
    requires d > 0 && PagesOf(m, d)
    ensures IsPut(m, m, d, lo, lo, data, hdr)
  {
  }

  /** The page of the destination at offset at, as the copy leaves it. */
  function Chunk(page: seq<byte>, d: nat, at: nat, c: seq<byte>, hdr: seq<byte>): (r: seq<byte>)
    requires d > 0 && at % d + |c| <= |page| && (|hdr| == 4 ==> |page| >= 32)
    ensures |r| == |page|
  {
    var p := Over(page, at % d, c);
    if at == 0 && |hdr| == 4 then Over(p, 28, hdr) else p
  }

  function Least(s: nat, d: nat): nat { if s < d then s else d }

  lemma ChunkFits(s: nat, d: nat, lo: nat, at: nat)
    requires PageSize(s) && PageSize(d) && Aligned(lo, s, s) && lo <= at < lo + s && Aligned(at, s, d)
    ensures var n := Least(s, d);
      n >= 512 && d % n == 0 && at + n <= lo + s && at % s == at - lo && at % s + n <= s && at % d + n <= d && (at + n) % n == 0
    ensures lo == 0 && at > 0 ==> at >= 32
  {
    var n := Least(s, d);
    SizesDivide(s, d);
    SizesDivide(d, s);
    hide PageSize;
    MultipleOfMultiple(lo, n, s);
    NextMultiple(lo, s);
    MultipleOfMultiple(lo + s, n, s);
    MultipleGap(at, lo + s, n);
    NextMultiple(at, n);
    StretchInPage(lo, s, s, at);
    StretchInPage(at, n, d, at);
    if lo == 0 && at > 0 { MultipleGap(0, at, n); }
  }

  lemma InStretch(at: nat, n: nat, d: nat, o: nat)
    requires n > 0 && d > 0 && d % n == 0 && at % n == 0
    ensures at <= o < at + n <==> PageOf(o, d) == PageOf(at, d) && at % d <= o % d < at % d + n
    ensures at <= o < at + n ==> o % d == at % d + (o - at)
  {
    if at <= o < at + n { StretchInPage(at, n, d, o); }
    assert o == o / d * d + o % d && at == at / d * d + at % d;
  }

  /** What one round of the copy loop does to a byte of the destination. */
  lemma ChunkByte(m: map<nat, seq<byte>>, d: nat, at: nat, c: seq<byte>, hdr: seq<byte>, page: seq<byte>, o: nat)
    requires d >= 512 && PagesOf(m, d) && |c| > 0 && d % |c| == 0 && at % |c| == 0 && at % d + |c| <= d && |hdr| in {0, 4}
    requires |page| == d && if PageOf(at, d) in m then page == m[PageOf(at, d)] else page == Zeros(d)
    ensures var m' := m[PageOf(at, d) := Chunk(page, d, at, c, hdr)];
      PagesOf(m', d) && At(m', d, o) == if at == 0 && |hdr| == 4 && 28 <= o < 32 then hdr[o - 28]
                                        else if at <= o < at + |c| then c[o - at] else At(m, d, o)
  {
    hide At;
    var p := PageOf(at, d);
    InStretch(at, |c|, d, o);
    WrittenByte(m, d, p, at % d, c, page, o);
    if at == 0 && |hdr| == 4 {
      var page' := Over(page, at % d, c);
      InStretch(0, 512, 512, o);
      WrittenByte(m[p := page'], d, p, 28, hdr, page', o);
      assert m[p := page'][p := Over(page', 28, hdr)] == m[p := Over(page', 28, hdr)];
      InPage(o, 1, d);
    }
  }

  lemma ChunkHdr(page: seq<byte>, d: nat, at: nat, c: seq<byte>, h1: seq<byte>, h2: seq<byte>)
    requires d > 0 && at % d + |c| <= |page| && |page| >= 32 && (at == 0 ==> h1 == h2)
    ensures Chunk(page, d, at, c, h1) == Chunk(page, d, at, c, h2)
  {
  }

  lemma PutMore(was: byte, now: byte, lo: nat, at: nat, n: nat, d: nat, data: seq<byte>, hdr: seq<byte>, o: nat)
    requires d > 0 && lo <= at && at + n <= lo + |data| && (lo == 0 && at > 0 ==> at >= 32) && n >= 32
    requires now == Put(was, lo, at, d, data, hdr, o) && (at <= o < at + n ==> PageOf(o, d) != Pending(d))
    ensures Put(was, lo, at + n, d, data, hdr, o) == if at == 0 && |hdr| == 4 && 28 <= o < 32 then hdr[o - 28]
                                                     else if at <= o < at + n then data[at - lo..at - lo + n][o - at] else now
  {
  }

  /** One round of the copy loop. */
  lemma ChunkPut(m0: map<nat, seq<byte>>, m: map<nat, seq<byte>>, s: nat, d: nat, lo: nat, at: nat, data: seq<byte>, hdr: seq<byte>, page: seq<byte>)
    requires s > 0 && d >= 512 && |data| == s && lo <= at < lo + s && Least(s, d) > 0 && at % Least(s, d) == 0
    requires PagesOf(m0, d) && PagesOf(m, d) && IsPut(m0, m, d, lo, at, data, hdr) && |hdr| in {0, 4} && at % d + Least(s, d) <= d
    requires at % s == at - lo && at + Least(s, d) <= lo + s && (lo == 0 && at > 0 ==> at >= 32)
    requires |page| == d && if PageOf(at, d) in m then page == m[PageOf(at, d)] else page == Zeros(d)
    requires PageOf(at, d) != Pending(d) && Least(s, d) >= 512 && d % Least(s, d) == 0
    ensures var m' := m[PageOf(at, d) := Chunk(page, d, at, data[at % s..at % s + Least(s, d)], hdr)];
      PagesOf(m', d) && IsPut(m0, m', d, lo, at + Least(s, d), data, hdr)
  {
    var n := Least(s, d);
    hide At, Chunk, Put, PageSize, Least;
    var c := data[at % s..at % s + n];
    var m' := m[PageOf(at, d) := Chunk(page, d, at, c, hdr)];
    ChunkByte(m, d, at, c, hdr, page, 0);
    forall o: nat ensures At(m', d, o) == Put(At(m0, d, o), lo, at + n, d, data, hdr, o) {
      ChunkByte(m, d, at, c, hdr, page, o);
      InStretch(at, n, d, o);
      PutMore(At(m0, d, o), At(m, d, o), lo, at, n, d, data, hdr, o);
    }
  }

  /** A round that would touch the destination's pending page does nothing. */
  lemma ChunkSkipped(m0: map<nat, seq<byte>>, m: map<nat, seq<byte>>, s: nat, d: nat, lo: nat, at: nat, data: seq<byte>, hdr: seq<byte>)
    requires PageSize(s) && PageSize(d) && |data| == s && lo <= at < lo + s && at % Least(s, d) == 0
    requires PagesOf(m0, d) && PagesOf(m, d) && IsPut(m0, m, d, lo, at, data, hdr)
    requires at + Least(s, d) <= lo + s && (lo == 0 && at > 0 ==> at >= 32) && PageOf(at, d) == Pending(d)
    ensures IsPut(m0, m, d, lo, at + Least(s, d), data, hdr)
  {
    var n := Least(s, d);
    SizesDivide(s, d);
    SizesDivide(d, s);
    hide At;
    forall o: nat ensures At(m, d, o) == Put(At(m0, d, o), lo, at + n, d, data, hdr, o) {
      InStretch(at, n, d, o);
    }
  }

  ghost predicate Reached(d: nat, lo: nat, hi: nat, n: nat)
    requires d > 0
  {
    forall o: nat :: lo <= o < hi && PageOf(o, d) != Pending(d) ==> PageOf(o, d) <= n
  }

  /** The bytes [lo, hi) of the source have been copied into the n0 pages m0, which are now the n pages m. */
  ghost predicate CopiedTo(m0: map<nat, seq<byte>>, n0: nat, m: map<nat, seq<byte>>, n: nat, d: nat, lo: nat, hi: nat, data: seq<byte>, hdr: seq<byte>) {
    && d >= 512 && PagesOf(m0, d) && PagesOf(m, d) && lo <= hi <= lo + |data| && m0.Keys <= m.Keys && n0 <= n
    && IsPut(m0, m, d, lo, hi, data, hdr) && Reached(d, lo, hi, n)
  }

  predicate Aligned(at: nat, s: nat, d: nat) {
    Least(s, d) > 0 && at % Least(s, d) == 0
  }

  /** What the copy loop reads and writes at byte `at` lies on one page on both sides. */
  predicate Fits(at: nat, s: nat, d: nat) {
    s > 0 && d > 32 && at % s + Least(s, d) <= s && at % d + Least(s, d) <= d
  }

  /** The destination page that holds byte `at` after a round of the copy loop. */
  function Round(page: seq<byte>, s: nat, d: nat, at: nat, data: seq<byte>, hdr: seq<byte>): seq<byte>
    requires Fits(at, s, d) && |data| == s && |page| == d
  {
    Chunk(page, d, at, data[at % s..at % s + Least(s, d)], hdr)
  }

  lemma NothingCopied(m: map<nat, seq<byte>>, n: nat, d: nat, lo: nat, data: seq<byte>, hdr: seq<byte>)
    requires d >= 512 && PagesOf(m, d)
    ensures CopiedTo(m, n, m, n, d, lo, lo, data, hdr)
  {
    PutNothing(m, d, lo, data, hdr);
  }

  lemma CopiedPages(m0: map<nat, seq<byte>>, n0: nat, m: map<nat, seq<byte>>, n: nat, d: nat, lo: nat, hi: nat, data: seq<byte>, hdr: seq<byte>)
    requires CopiedTo(m0, n0, m, n, d, lo, hi, data, hdr)
    ensures PagesOf(m0, d)
  {
  }

  lemma CopiedFacts(m0: map<nat, seq<byte>>, n0: nat, m: map<nat, seq<byte>>, n: nat, d: nat, lo: nat, hi: nat, data: seq<byte>, hdr: seq<byte>)
    requires CopiedTo(m0, n0, m, n, d, lo, hi, data, hdr)
    ensures PagesOf(m, d) && (1 in m0 ==> 1 in m) && n0 <= n
  {
  }

  lemma ReachedMore(s: nat, d: nat, lo: nat, at: nat, n: nat, n': nat)
    requires PageSize(s) && PageSize(d) && Aligned(at, s, d) && Reached(d, lo, at, n) && n <= n'
    requires PageOf(at, d) != Pending(d) ==> PageOf(at, d) <= n'
    ensures Reached(d, lo, at + Least(s, d), n')
  {
    OnePageOnly(at, s, d);
  }

  lemma RoundPut(m0: map<nat, seq<byte>>, m: map<nat, seq<byte>>, s: nat, d: nat, lo: nat, at: nat, data: seq<byte>, hdr: seq<byte>,
                 page: seq<byte>, h: seq<byte>)
    requires PageSize(s) && PageSize(d) && |data| == s && Aligned(lo, s, s) && lo <= at < lo + s && Aligned(at, s, d)
    requires PagesOf(m0, d) && PagesOf(m, d) && IsPut(m0, m, d, lo, at, data, hdr) && |hdr| in {0, 4}
    requires page == (if PageOf(at, d) in m then m[PageOf(at, d)] else Zeros(d)) && (at == 0 ==> h == hdr)
    ensures Fits(at, s, d) && |page| == d && at + Least(s, d) <= lo + s
    ensures if PageOf(at, d) == Pending(d) then IsPut(m0, m, d, lo, at + Least(s, d), data, hdr)
            else
              var m' := m[PageOf(at, d) := Round(page, s, d, at, data, h)];
              PagesOf(m', d) && IsPut(m0, m', d, lo, at + Least(s, d), data, hdr)
  {
    hide At, PageSize, Chunk, IsPut, Pending, Least, PageOf;
    SizesPositive(s, d);
    ChunkFits(s, d, lo, at);
    if PageOf(at, d) == Pending(d) {
      ChunkSkipped(m0, m, s, d, lo, at, data, hdr);
    } else {
      ChunkPut(m0, m, s, d, lo, at, data, hdr, page);
      ChunkHdr(page, d, at, data[at % s..at % s + Least(s, d)], hdr, h);
    }
  }

  /** One round of the copy loop, on the destination's pages and their number. */
  lemma ChunkCopied(m0: map<nat, seq<byte>>, n0: nat, m: map<nat, seq<byte>>, n: nat, s: nat, d: nat, lo: nat, at: nat, data: seq<byte>, hdr: seq<byte>,
                    page: seq<byte>, h: seq<byte>)
    requires PageSize(s) && PageSize(d) && |data| == s && Aligned(lo, s, s) && lo <= at < lo + s && Aligned(at, s, d)
    requires CopiedTo(m0, n0, m, n, d, lo, at, data, hdr) && |hdr| in {0, 4}
    requires page == (if PageOf(at, d) in m then m[PageOf(at, d)] else Zeros(d)) && (at == 0 ==> h == hdr)
    ensures Fits(at, s, d) && |page| == d && at + Least(s, d) <= lo + s
    ensures if PageOf(at, d) == Pending(d) then CopiedTo(m0, n0, m, n, d, lo, at + Least(s, d), data, hdr)
            else CopiedTo(m0, n0, m[PageOf(at, d) := Round(page, s, d, at, data, h)],
                          if PageOf(at, d) > n then PageOf(at, d) else n, d, lo, at + Least(s, d), data, hdr)
  {
    hide At, PageSize, Round, IsPut, Pending, Least, PageOf, Reached, Aligned, Fits;
    RoundPut(m0, m, s, d, lo, at, data, hdr, page, h);
    ReachedMore(s, d, lo, at, n, if PageOf(at, d) == Pending(d) || PageOf(at, d) <= n then n else PageOf(at, d));
  }

  // ----- what has been copied stays equal -----

  /** Byte o of the source lies on a page below upTo, and not on either pending page. */
  predicate Due(o: nat, s: nat, d: nat, nSrc: nat, upTo: nat)
    requires s > 0 && d > 0
  {
    PageOf(o, s) < upTo && PageOf(o, s) <= nSrc && PageOf(o, s) != Pending(s) && PageOf(o, d) != Pending(d)
  }

  /** The destination: in WAL mode, or in memory. */
  datatype Stamps = Stamps(wal: bool, mem: bool)

  /** Bytes of the header that are not copied as they are: the page count, and, written whenever page 1 goes to a file, the change counter,
      the counter the version is valid for, and the version. */
  predicate Marked(o: nat, mem: bool) {
    28 <= o < 32 || (!mem && (24 <= o < 28 || 92 <= o < 100))
  }

  /** Byte o is the same on both sides, unless it is marked. */
  predicate Equal(src: map<nat, seq<byte>>, s: nat, dest: map<nat, seq<byte>>, nDest: nat, d: nat, o: nat, mem: bool)
    requires s > 0 && d > 0 && PagesOf(src, s) && PagesOf(dest, d)
  {
    PageOf(o, d) <= nDest && (Marked(o, mem) || At(dest, d, o) == At(src, s, o))
  }

  ghost predicate Mirroring(src: map<nat, seq<byte>>, nSrc: nat, s: nat, dest: map<nat, seq<byte>>, nDest: nat, d: nat, upTo: nat, but: nat, mem: bool)
    requires s > 0 && d > 0 && PagesOf(src, s) && PagesOf(dest, d)
  {
    forall o: nat :: Due(o, s, d, nSrc, upTo) && PageOf(o, s) != but ==> Equal(src, s, dest, nDest, d, o, mem)
  }

  lemma CopiedByte(src: map<nat, seq<byte>>, s: nat, m0: map<nat, seq<byte>>, n0: nat, m: map<nat, seq<byte>>, n: nat, d: nat, p: nat, hdr: seq<byte>, o: nat, mem: bool)
    requires s > 0 && PagesOf(src, s) && p > 0 && p in src && |hdr| in {0, 4} && d > 0 && PageOf(o, d) != Pending(d)
    requires CopiedTo(m0, n0, m, n, d, Base(p, s), Base(p, s) + s, src[p], hdr)
    ensures PageOf(o, s) == p || Equal(src, s, m0, n0, d, o, mem) ==> Equal(src, s, m, n, d, o, mem)
  {
    InPage(o, p, s);
  }

  /** Copying page p makes good for it. */
  lemma CopyMirrors(src: map<nat, seq<byte>>, nSrc: nat, s: nat, m0: map<nat, seq<byte>>, n0: nat, m: map<nat, seq<byte>>, n: nat, d: nat,
                    upTo: nat, p: nat, hdr: seq<byte>, mem: bool)
    requires s > 0 && PagesOf(src, s) && p > 0 && p in src && |hdr| in {0, 4} && d > 0 && PagesOf(m0, d) && PagesOf(m, d)
    requires CopiedTo(m0, n0, m, n, d, Base(p, s), Base(p, s) + s, src[p], hdr) && Mirroring(src, nSrc, s, m0, n0, d, upTo, p, mem)
    ensures Mirroring(src, nSrc, s, m, n, d, upTo, 0, mem)
  {
    hide CopiedTo, PageOf, Pending, Base, Equal, PagesOf;
    forall o: nat | Due(o, s, d, nSrc, upTo) ensures Equal(src, s, m, n, d, o, mem) {
      CopiedByte(src, s, m0, n0, m, n, d, p, hdr, o, mem);
    }
  }

  /** A write to page p spoils only page p. */
  lemma WriteMirrors(src: map<nat, seq<byte>>, nSrc: nat, s: nat, m: map<nat, seq<byte>>, n: nat, d: nat, upTo: nat, p: nat, data: seq<byte>, mem: bool)
    requires s > 0 && d > 0 && PagesOf(src, s) && PagesOf(m, d) && |data| == s && Mirroring(src, nSrc, s, m, n, d, upTo, 0, mem)
    requires p <= nSrc + 1 || (p == nSrc + 2 && nSrc + 1 == Pending(s))
    ensures PagesOf(src[p := data], s) && Mirroring(src[p := data], if p > nSrc then p else nSrc, s, m, n, d, upTo, p, mem)
  {
    forall o: nat | Due(o, s, d, if p > nSrc then p else nSrc, upTo) && PageOf(o, s) != p ensures Equal(src[p := data], s, m, n, d, o, mem) {
      assert Due(o, s, d, nSrc, upTo) && PageOf(o, s) != 0;
      assert Equal(src, s, m, n, d, o, mem);
    }
  }

  /** The next page to copy need not agree yet; the pending page never has to. */
  lemma NextMirrors(src: map<nat, seq<byte>>, nSrc: nat, s: nat, m: map<nat, seq<byte>>, n: nat, d: nat, p: nat, mem: bool)
    requires s > 0 && d > 0 && PagesOf(src, s) && PagesOf(m, d) && Mirroring(src, nSrc, s, m, n, d, p, 0, mem)
    ensures Mirroring(src, nSrc, s, m, n, d, p + 1, p, mem)
    ensures p == Pending(s) ==> Mirroring(src, nSrc, s, m, n, d, p + 1, 0, mem)
  {
    hide Equal, Pending;
    forall o: nat | Due(o, s, d, nSrc, p + 1) && PageOf(o, s) != p ensures Equal(src, s, m, n, d, o, mem) {
      assert Due(o, s, d, nSrc, p) && PageOf(o, s) != 0;
    }
  }

  // ----- the file the destination ends up as -----

  function Flat(m: map<nat, seq<byte>>, d: nat, n: nat): (r: seq<byte>)
    requires d > 0 && PagesOf(m, d)
    ensures |r| == n && forall o :: 0 <= o < n ==> r[o] == At(m, d, o)
  {
    seq(n, o requires 0 <= o => At(m, d, o))
  }

  /** A write to a file, which grows with zeros up to the write if it has to. */
  function FileWrite(f: seq<byte>, at: nat, s: seq<byte>): (r: seq<byte>)
    ensures |r| == if |f| < at + |s| then at + |s| else |f|
    ensures forall o :: 0 <= o < |r| ==> r[o] == if at <= o < at + |s| then s[o - at] else if o < |f| then f[o] else 0
  {
    Over(if |f| < at + |s| then f + Zeros(at + |s| - |f|) else f, at, s)
  }

  /** Bytes of page 1 that the backup sets itself: those marked, the schema cookie and, in WAL mode, the file format versions. */
  predicate Rewritten(o: nat, st: Stamps) {
    Marked(o, st.mem) || 40 <= o < 44 || (st.wal && 18 <= o < 20)
  }

  /** Every page of the source but the pending one is there. */
  predicate Whole(src: map<nat, seq<byte>>, nSrc: nat, s: nat)
    requires s > 0
  {
    forall p :: 0 < p <= nSrc && p != Pending(s) ==> p in src
  }

  /** The database the destination file holds is the source, where the backup does not write the header itself. */
  ghost predicate Image(f: seq<byte>, src: map<nat, seq<byte>>, nSrc: nat, s: nat, st: Stamps)
    requires s > 0 && PagesOf(src, s)
  {
    && |f| <= Base(nSrc + 1, s) && (nSrc != Pending(s) ==> |f| == Base(nSrc + 1, s))
    && forall o: nat :: o < Base(nSrc + 1, s) && PageOf(o, s) != Pending(s) && !Rewritten(o, st) ==> o < |f| && f[o] == At(src, s, o)
  }

  /** As far as it has been written: on the destination's pending page, up to byte upTo. */
  ghost predicate Agrees(f: seq<byte>, src: map<nat, seq<byte>>, nSrc: nat, s: nat, d: nat, upTo: nat, st: Stamps)
    requires s > 0 && d > 0 && PagesOf(src, s)
  {
    forall o: nat :: o < Base(nSrc + 1, s) && PageOf(o, s) != Pending(s) && !Rewritten(o, st) && (PageOf(o, d) != Pending(d) || o < upTo) ==>
      o < |f| && f[o] == At(src, s, o)
  }

  /** The destination's pages, before they are flushed. */
  ghost predicate Ready(src: map<nat, seq<byte>>, nSrc: nat, s: nat, m: map<nat, seq<byte>>, n: nat, d: nat, st: Stamps)
    requires s > 0 && d > 0 && PagesOf(src, s) && PagesOf(m, d)
  {
    forall o: nat :: o < Base(nSrc + 1, s) && PageOf(o, s) != Pending(s) && PageOf(o, d) != Pending(d) && !Rewritten(o, st) ==>
      (s < d ==> PageOf(o, d) <= n) && At(m, d, o) == At(src, s, o)
  }

  /** The number of pages the destination is cut to. */
  function DestTruncate(nSrc: nat, s: nat, d: nat): nat
    requires PageSize(s) && PageSize(d)
  {
    if s < d then
      var ratio := d / s;
      var n := (nSrc + ratio - 1) / ratio;
      if n == Pending(d) then n - 1 else n
    else nSrc * (s / d)
  }

  /** Cut to so many pages, a destination with larger pages still holds all of the source, or all of it before the pending page. */
  lemma TruncateCovers(nSrc: nat, s: nat, d: nat)
    requires PageSize(s) && PageSize(d) && s < d && nSrc > 0
    ensures var n, iSize := DestTruncate(nSrc, s, d), Base(nSrc + 1, s);
      && n > 0
      && (Base(n + 1, d) >= iSize || (n == Pending(d) - 1 && PENDING_BYTE <= iSize <= PENDING_BYTE + d))
  {
    SizesPositive(s, d);
    SizesDivide(s, d);
    SizesDivide(d, d);
    SmallEnough(d);
    PendingStart(d);
    var k: nat, n: nat := d / s, (nSrc + d / s - 1) / (d / s);
    RoundedUp(nSrc, k, s, d, n);
    hide PageSize, Pending;
    BaseNext(n, d);
    BaseNext(n - 1, d);
  }

  /** No page is kept that holds nothing of the source, nor the pending page at the end. */
  lemma TruncateLeast(nSrc: nat, s: nat, d: nat)
    requires PageSize(s) && PageSize(d) && s < d && nSrc > 0
    ensures var n := DestTruncate(nSrc, s, d); n > 0 && n != Pending(d) && Base(n, d) < Base(nSrc + 1, s)
  {
    SizesPositive(s, d);
    SizesDivide(s, d);
    PendingHigh(d);
    var k: nat, n: nat := d / s, (nSrc + d / s - 1) / (d / s);
    RoundedUp(nSrc, k, s, d, n);
    FewerRounded(nSrc, k, s, d, n);
    hide PageSize, Pending;
    if n > 1 { BaseNext(n - 2, d); }
    BaseNext(n - 1, d);
    BaseNext(nSrc, s);
  }

  lemma FewerRounded(nSrc: nat, k: nat, s: nat, d: nat, n: nat)
    requires k > 0 && s > 0 && d == k * s && n == (nSrc + k - 1) / k && nSrc > 0
    ensures n > 0 ==> (n - 1) * d < nSrc * s
  {
    var r: nat := (nSrc + k - 1) % k;
    assert nSrc + k - 1 == n * k + r;
    if n > 0 {
      assert (n - 1) * k == n * k - k;
      MulMono((n - 1) * k + 1, nSrc, s);
      Regroup(n - 1, k, 0, s);
      assert ((n - 1) * k + 1) * s == (n - 1) * k * s + s;
    }
  }

  lemma BaseNext(n: nat, d: nat)
    ensures Base(n + 1, d) == n * d && (n > 0 ==> Base(n + 1, d) == Base(n, d) + d)
  {
    if n > 0 { assert n * d == (n - 1) * d + d; }
  }

  lemma RoundedUp(nSrc: nat, k: nat, s: nat, d: nat, n: nat)
    requires k > 0 && s > 0 && d == k * s && n == (nSrc + k - 1) / k && nSrc > 0
    ensures n > 0 && (n - 1) * d <= nSrc * s <= n * d
  {
    var r: nat := (nSrc + k - 1) % k;
    assert nSrc + k - 1 == n * k + r;
    if n == 0 { assert false; }
    assert (n - 1) * k == n * k - k;
    MulMono(nSrc, n * k, s);
    MulMono((n - 1) * k, nSrc, s);
    Regroup(n, k, 0, s);
    Regroup(n - 1, k, 0, s);
  }

  /** The two pending pages start at the same byte, and the one with the larger page size holds the other. */
  lemma PendingInside(o: nat, s: nat, d: nat)
    requires PageSize(s) && PageSize(d) && s <= d
    ensures PageOf(o, s) == Pending(s) <==> PENDING_BYTE <= o < PENDING_BYTE + s
    ensures PageOf(o, s) == Pending(s) ==> PageOf(o, d) == Pending(d)
    ensures PageOf(o, d) == Pending(d) <==> PENDING_BYTE <= o < PENDING_BYTE + d
  {
    PendingStart(s);
    PendingStart(d);
    SizesPositive(s, d);
    hide PageSize;
    InPage(o, Pending(s), s);
    InPage(o, Pending(d), d);
  }

  /** Flushed pages, when the source's pages are the smaller ones. */
  lemma FlushedSmall(src: map<nat, seq<byte>>, nSrc: nat, s: nat, m: map<nat, seq<byte>>, n: nat, d: nat, st: Stamps)
    requires PageSize(s) && PageSize(d) && s < d && PagesOf(src, s) && PagesOf(m, d) && Ready(src, nSrc, s, m, n, d, st)
    ensures Agrees(Flat(m, d, Base(n + 1, d)), src, nSrc, s, d, PENDING_BYTE + s, st)
  {
    SizesPositive(s, d);
    hide PageSize, At, Base, PageOf, Pending;
    var f := Flat(m, d, Base(n + 1, d));
    forall o: nat | o < Base(nSrc + 1, s) && PageOf(o, s) != Pending(s) && !Rewritten(o, st) && (PageOf(o, d) != Pending(d) || o < PENDING_BYTE + s)
      ensures o < |f| && f[o] == At(src, s, o)
    {
      PendingInside(o, s, d);
      InPage(o, n + 1, d);
    }
  }

  lemma CutWhole(nSrc: nat, s: nat, d: nat)
    requires PageSize(s) && PageSize(d) && d <= s
    ensures DestTruncate(nSrc, s, d) * d == Base(nSrc + 1, s)
  {
    SizesPositive(s, d);
    SizesDivide(d, s);
    hide PageSize;
    assert nSrc * (s / d) * d == nSrc * (s / d * d);
  }

  lemma FlushedLarge(src: map<nat, seq<byte>>, nSrc: nat, s: nat, m: map<nat, seq<byte>>, n: nat, d: nat, st: Stamps)
    requires PageSize(s) && PageSize(d) && d <= s && PagesOf(src, s) && PagesOf(m, d) && Ready(src, nSrc, s, m, n, d, st)
    ensures DestTruncate(nSrc, s, d) * d == Base(nSrc + 1, s)
    ensures Image(Flat(m, d, Base(nSrc + 1, s)), src, nSrc, s, st)
  {
    SizesPositive(s, d);
    CutWhole(nSrc, s, d);
    hide PageSize, At, PageOf, Pending, Base, DestTruncate;
    var f := Flat(m, d, Base(nSrc + 1, s));
    forall o: nat | o < Base(nSrc + 1, s) && PageOf(o, s) != Pending(s) && !Rewritten(o, st) ensures o < |f| && f[o] == At(src, s, o) {
      PendingInside(o, d, s);
    }
  }

  predicate Multiple(at: nat, s: nat) { s > 0 && at % s == 0 }

  lemma SmallEnough(s: nat)
    requires PageSize(s)
    ensures Base(2, s) < PENDING_BYTE && Multiple(PENDING_BYTE + s, s)
  {
    SizesDivide(s, s);
  }

  lemma ExtraPage(at: nat, nSrc: nat, s: nat)
    requires PageSize(s) && PENDING_BYTE + s <= at < Base(nSrc + 1, s) && Multiple(at, s)
    ensures 0 < PageOf(at, s) <= nSrc && PageOf(at, s) != Pending(s) && Multiple(at + s, s)
  {
    PendingInside(at, s, s);
    InPage(at, nSrc + 1, s);
    NextMultiple(at, s);
  }

  /** One of the source's pages that share the destination's pending page is written to the file. */
  lemma ExtraWritten(f: seq<byte>, src: map<nat, seq<byte>>, nSrc: nat, s: nat, d: nat, at: nat, st: Stamps)
    requires PageSize(s) && PageSize(d) && PagesOf(src, s) && Multiple(at, s) && PageOf(at, s) in src && Agrees(f, src, nSrc, s, d, at, st)
    ensures Agrees(FileWrite(f, at, src[PageOf(at, s)]), src, nSrc, s, d, at + s, st)
  {
    SizesPositive(s, d);
    var f' := FileWrite(f, at, src[PageOf(at, s)]);
    forall o: nat | o < Base(nSrc + 1, s) && PageOf(o, s) != Pending(s) && !Rewritten(o, st) && (PageOf(o, d) != Pending(d) || o < at + s)
      ensures o < |f'| && f'[o] == At(src, s, o)
    {
      hide PageSize, FileWrite, Base, Pending;
      InStretch(at, s, s, o);
    }
  }

  lemma Truncated(f: seq<byte>, src: map<nat, seq<byte>>, nSrc: nat, s: nat, d: nat, upTo: nat, st: Stamps)
    requires PageSize(s) && PageSize(d) && s <= d && PagesOf(src, s) && nSrc > 0 && Agrees(f, src, nSrc, s, d, upTo, st)
    requires upTo >= PENDING_BYTE + d || upTo >= Base(nSrc + 1, s)
    ensures Image(if |f| > Base(nSrc + 1, s) then f[..Base(nSrc + 1, s)] else f, src, nSrc, s, st)
  {
    SizesPositive(s, d);
    hide PageSize, At;
    forall o: nat | o < Base(nSrc + 1, s) && PageOf(o, s) != Pending(s) && !Rewritten(o, st) ensures o < |f| && f[o] == At(src, s, o) {
      hide PageOf, Pending, Base;
      PendingInside(o, s, d);
    }
    if nSrc != Pending(s) {
      var o: nat := Base(nSrc, s) + s - 1;
      InPage(o, nSrc, s);
      assert Base(nSrc + 1, s) == o + 1;
    }
  }

  // ----- page 1 of the destination -----

  const SQLITE_VERSION_NUMBER: nat := 3007017

  ghost predicate SameBut(m0: map<nat, seq<byte>>, m: map<nat, seq<byte>>, d: nat, st: Stamps)
    requires d > 0 && PagesOf(m0, d) && PagesOf(m, d)
  {
    forall o: nat :: !Rewritten(o, st) ==> At(m, d, o) == At(m0, d, o)
  }

  /** Bytes a .. a + |b| - 1 are b. */
  ghost predicate Reads(m: map<nat, seq<byte>>, d: nat, a: nat, b: seq<byte>)
    requires d > 0 && PagesOf(m, d)
  {
    forall i :: 0 <= i < |b| ==> At(m, d, a + i) == b[i]
  }

  function Set(m: map<nat, seq<byte>>, a: nat, b: seq<byte>): (r: map<nat, seq<byte>>)
    requires 1 in m && a + |b| <= |m[1]|
    ensures r.Keys == m.Keys && |r[1]| == |m[1]|
  {
    m[1 := Over(m[1], a, b)]
  }

  /** The first bytes of the file, where those from a on are set to b. */
  lemma HeaderByte(m: map<nat, seq<byte>>, d: nat, a: nat, b: seq<byte>, o: nat)
    requires d >= 512 && PagesOf(m, d) && 1 in m && a + |b| <= 512
    ensures PagesOf(Set(m, a, b), d)
    ensures At(Set(m, a, b), d, o) == if a <= o < a + |b| then b[o - a] else At(m, d, o)
  {
    InPage(o, 1, d);
  }

  lemma HeaderSet(m: map<nat, seq<byte>>, d: nat, a: nat, b: seq<byte>)
    requires d >= 512 && PagesOf(m, d) && 1 in m && a + |b| <= 512
    ensures PagesOf(Set(m, a, b), d) && Reads(Set(m, a, b), d, a, b)
    ensures forall o: nat :: o < a || a + |b| <= o ==> At(Set(m, a, b), d, o) == At(m, d, o)
  {
    hide At, Set;
    HeaderByte(m, d, a, b, 0);
    forall o: nat ensures At(Set(m, a, b), d, o) == if a <= o < a + |b| then b[o - a] else At(m, d, o) {
      HeaderByte(m, d, a, b, o);
    }
  }

  /** sqlite3BtreeUpdateMeta for the schema cookie, and sqlite3BtreeSetVersion. */
  function Stamped(m: map<nat, seq<byte>>, d: nat, cookie: nat, st: Stamps): (r: map<nat, seq<byte>>)
    requires d >= 512 && PagesOf(m, d) && 1 in m
    ensures 1 in r
  {
    var m' := Set(m, 40, Bytes4(cookie));
    if st.wal then Set(m', 18, [2, 2]) else m'
  }

  lemma StampedHeader(m: map<nat, seq<byte>>, d: nat, cookie: nat, st: Stamps)
    requires d >= 512 && PagesOf(m, d) && 1 in m
    ensures var r := Stamped(m, d, cookie, st);
      && PagesOf(r, d) && SameBut(m, r, d, st) && Reads(r, d, 40, Bytes4(cookie)) && (st.wal ==> Reads(r, d, 18, [2, 2]))
      && forall o: nat :: 28 <= o < 32 ==> At(r, d, o) == At(m, d, o)
  {
    hide At, Set;
    var m' := Set(m, 40, Bytes4(cookie));
    HeaderSet(m, d, 40, Bytes4(cookie));
    SetKeeps(m, 40, Bytes4(cookie));
    if st.wal { HeaderSet(m', d, 18, [2, 2]); }
  }

  lemma SetKeeps(m: map<nat, seq<byte>>, a: nat, b: seq<byte>)
    requires 1 in m && a + |b| <= |m[1]|
    ensures 1 in Set(m, a, b) && |Set(m, a, b)[1]| == |m[1]|
  {
  }

  /** pager_write_changecounter: page 1 on its way to the file. */
  function Counted(m: map<nat, seq<byte>>, d: nat, counter: nat): (r: map<nat, seq<byte>>)
    requires d >= 512 && PagesOf(m, d) && 1 in m
    ensures 1 in r
  {
    Set(Set(Set(m, 24, Bytes4(counter)), 92, Bytes4(counter)), 96, Bytes4(SQLITE_VERSION_NUMBER))
  }

  /** The counter and the version are there, and nothing else has changed. */
  lemma CountedHeader(m: map<nat, seq<byte>>, d: nat, counter: nat)
    requires d >= 512 && PagesOf(m, d) && 1 in m
    ensures var r := Counted(m, d, counter);
      && PagesOf(r, d) && Reads(r, d, 24, Bytes4(counter)) && Reads(r, d, 92, Bytes4(counter)) && Reads(r, d, 96, Bytes4(SQLITE_VERSION_NUMBER))
      && forall o: nat :: !(24 <= o < 28 || 92 <= o < 100) ==> At(r, d, o) == At(m, d, o)
  {
    hide At, Set, Bytes4;
    var c, v := Bytes4(counter), Bytes4(SQLITE_VERSION_NUMBER);
    var m1 := Set(m, 24, c);
    HeaderSet(m, d, 24, c);
    SetKeeps(m, 24, c);
    var m2 := Set(m1, 92, c);
    HeaderSet(m1, d, 92, c);
    SetKeeps(m1, 92, c);
    HeaderSet(m2, d, 96, v);
  }

  lemma ReadyCounted(src: map<nat, seq<byte>>, nSrc: nat, s: nat, m: map<nat, seq<byte>>, n: nat, d: nat, counter: nat, st: Stamps)
    requires s > 0 && d >= 512 && PagesOf(src, s) && PagesOf(m, d) && 1 in m && Ready(src, nSrc, s, m, n, d, st) && !st.mem
    ensures PagesOf(Counted(m, d, counter), d) && Ready(src, nSrc, s, Counted(m, d, counter), n, d, st)
  {
    hide At, Counted, Base, PageOf, Pending;
    CountedHeader(m, d, counter);
  }

  lemma MirrorsCounted(src: map<nat, seq<byte>>, nSrc: nat, s: nat, m: map<nat, seq<byte>>, n: nat, d: nat, upTo: nat, counter: nat)
    requires s > 0 && d >= 512 && PagesOf(src, s) && PagesOf(m, d) && 1 in m && Mirroring(src, nSrc, s, m, n, d, upTo, 0, false)
    ensures PagesOf(Counted(m, d, counter), d) && Mirroring(src, nSrc, s, Counted(m, d, counter), n, d, upTo, 0, false)
  {
    hide At, Counted, PageOf, Pending;
    CountedHeader(m, d, counter);
    forall o: nat | Due(o, s, d, nSrc, upTo) && PageOf(o, s) != 0 ensures Equal(src, s, Counted(m, d, counter), n, d, o, false) {
      assert Equal(src, s, m, n, d, o, false);
    }
  }

  /** The page count in the header after a page has been copied. */
  lemma CopiedCount(m0: map<nat, seq<byte>>, n0: nat, m: map<nat, seq<byte>>, n: nat, s: nat, d: nat, p: nat, data: seq<byte>, hdr: seq<byte>)
    requires PageSize(s) && PageSize(d) && p > 0 && |data| == s && |hdr| in {0, 4}
    requires CopiedTo(m0, n0, m, n, d, Base(p, s), Base(p, s) + s, data, hdr)
    ensures p == 1 ==> Reads(m, d, 28, if hdr == [] then data[28..32] else hdr)
    ensures p > 1 ==> forall b: seq<byte> :: |b| == 4 && Reads(m0, d, 28, b) ==> Reads(m, d, 28, b)
  {
    SizesPositive(s, d);
    PendingStart(d);
    hide PageSize, At;
    if p > 1 { BaseAtLeast(p, s); }
    forall o: nat | 28 <= o < 32 ensures At(m, d, o) == if p > 1 then At(m0, d, o) else if hdr == [] then data[o] else hdr[o - 28] {
      InPage(o, Pending(d), d);
      assert At(m, d, o) == Put(At(m0, d, o), Base(p, s), Base(p, s) + s, d, data, hdr, o);
    }
  }

  /** All pages have been copied. */
  lemma MirrorsReady(src: map<nat, seq<byte>>, nSrc: nat, s: nat, m0: map<nat, seq<byte>>, m: map<nat, seq<byte>>, n: nat, d: nat, upTo: nat, st: Stamps)
    requires s > 0 && d > 0 && PagesOf(src, s) && PagesOf(m0, d) && PagesOf(m, d) && nSrc < upTo
    requires Mirroring(src, nSrc, s, m0, n, d, upTo, 0, st.mem) && SameBut(m0, m, d, st)
    ensures Ready(src, nSrc, s, m, n, d, st)
  {
    hide At;
    forall o: nat | o < Base(nSrc + 1, s) && PageOf(o, s) != Pending(s) && PageOf(o, d) != Pending(d) && !Rewritten(o, st)
      ensures (s < d ==> PageOf(o, d) <= n) && At(m, d, o) == At(src, s, o)
    {
      InPage(o, nSrc + 1, s);
      assert Due(o, s, d, nSrc, upTo) && PageOf(o, s) != 0;
    }
  }

  lemma SameReads(m: map<nat, seq<byte>>, m': map<nat, seq<byte>>, d: nat, a: nat, b: seq<byte>)
    requires d > 0 && PagesOf(m, d) && PagesOf(m', d) && Reads(m, d, a, b) && forall o: nat :: a <= o < a + |b| ==> At(m', d, o) == At(m, d, o)
    ensures Reads(m', d, a, b)
  {
  }

  lemma FirstBytes(f: seq<byte>, m: map<nat, seq<byte>>, d: nat, a: nat, b: seq<byte>)
    requires d > 0 && PagesOf(m, d) && |f| >= 512 && (forall o: nat :: o < 512 ==> f[o] == At(m, d, o)) && Reads(m, d, a, b) && a + |b| <= 512
    ensures f[a..a + |b|] == b
  {
    forall i | 0 <= i < |b| ensures f[a..a + |b|][i] == b[i] {
      assert f[a + i] == At(m, d, a + i);
    }
  }

  lemma PendingHigh(s: nat)
    requires PageSize(s)
    ensures Pending(s) > 2
  {
    SizesPositive(s, s);
  }

  lemma StartLength(f: seq<byte>, want: map<nat, seq<byte>>, s: nat, st: Stamps)
    requires PageSize(s) && PagesOf(want, s) && Image(f, want, 1, s, st)
    ensures |f| == s
  {
    SizesDivide(s, s);
  }

  /** What an empty source leaves is the start of the destination itself. */
  function Start(m: map<nat, seq<byte>>, s: nat, d: nat): (r: map<nat, seq<byte>>)
    requires d > 0 && PagesOf(m, d)
    ensures PagesOf(r, s)
  {
    map[1 := Flat(m, d, s)]
  }

  lemma StartReady(m: map<nat, seq<byte>>, n: nat, s: nat, d: nat, st: Stamps)
    requires s > 0 && d > 0 && PagesOf(m, d) && n > 0
    ensures Ready(Start(m, s, d), 1, s, m, n, d, st)
  {
    hide Flat;
    forall o: nat | o < Base(2, s) ensures At(Start(m, s, d), s, o) == At(m, d, o) && (s < d ==> PageOf(o, d) <= n) {
      hide At;
      InPage(o, 1, s);
      InPage(o, 1, d);
      StartByte(m, s, d, o);
    }
  }

  lemma StartByte(m: map<nat, seq<byte>>, s: nat, d: nat, o: nat)
    requires s > 0 && d > 0 && PagesOf(m, d) && o < s
    ensures At(Start(m, s, d), s, o) == At(m, d, o)
  {
    InPage(o, 1, s);
  }

  /** A step of nPage pages from page iNext on has a page to copy: only the source's pending page is passed over. */
  ghost predicate SomeDue(iNext: nat, nPage: int, nSrc: nat, s: nat)
    requires s > 0
  {
    exists p: nat :: DueAt(p, iNext, nPage, nSrc, s)
  }

  /** The page a step cannot copy is the first one that it has to. */
  ghost predicate FirstDue(p: int, iNext: nat, nPage: int, nSrc: nat, s: nat)
    requires s > 0
  {
    p >= 0 && DueAt(p, iNext, nPage, nSrc, s) && forall q: nat :: q < p ==> !DueAt(q, iNext, nPage, nSrc, s)
  }

  /** The first page a step leaves for the next one. */
  function CopiedUpTo(iNext: nat, nPage: int, nSrc: nat): nat {
    if iNext > nSrc then iNext else if nPage < 0 || iNext + nPage > nSrc then nSrc + 1 else iNext + nPage
  }

  predicate DueAt(p: nat, iNext: nat, nPage: int, nSrc: nat, s: nat)
    requires s > 0
  {
    iNext <= p <= nSrc && (nPage < 0 || p < iNext + nPage) && p != Pending(s)
  }

  class Backup {
    const nSrcPgsz: nat
    const nDestPgsz: nat
    /** The destination is an in-memory database; its journal mode is WAL. */
    const destMemDb: bool
    const destWal: bool
    /** What newDatabase writes at the start of page 1. */
    const blank: seq<byte>

    var src: map<nat, seq<byte>>
    var nSrc: nat
    var dest: map<nat, seq<byte>>
    var nDest: nat
    var file: seq<byte>

    var bDestLocked: bool
    var iDestSchema: nat
    /** The change counter of page 1 when it was last read, or written to the database file. */
    var dbFileVers: nat
    var iNext: nat
    var rc: Rc
    var nRemaining: nat
    var nPagecount: nat
    var isAttached: bool
    /** The size of the source when its page 1 was last copied, and whether a reported write has put page 1 itself there since. */
    ghost var sizeCopied: nat
    ghost var pageOneWritten: bool

    /** The change counter that page 1 gets when it is written. */
    function NextCounter(): nat
      reads this`dbFileVers
    {
      (dbFileVers + 1) % 0x1_0000_0000
    }

    /** The change counter that page 1 got when it was last written; in WAL mode the one read stays. */
    function LastCounter(): nat
      reads this`dbFileVers
    {
      if destWal then NextCounter() else dbFileVers
    }

    function Marks(): Stamps { Stamps(destWal, destMemDb) }

    ghost predicate Shape()
      reads this`src, this`nSrc, this`dest, this`nDest, this`iNext, this`bDestLocked, this`iDestSchema, this`dbFileVers
    {
      && PageSize(nSrcPgsz) && PageSize(nDestPgsz) && |blank| == 108
      && PagesOf(src, nSrcPgsz) && PagesOf(dest, nDestPgsz) && Whole(src, nSrc, nSrcPgsz) && nSrc < 0x8000_0000 && iNext > 0
      && iDestSchema < 0x1_0000_0000 && dbFileVers < 0x1_0000_0000 && (bDestLocked ==> 1 in dest && nDest > 0)
    }

    /** The destination agrees with the source on every page below iNext, page `but` aside. */
    ghost predicate Mirrors(but: nat)
      reads this`src, this`nSrc, this`dest, this`nDest, this`iNext, this`bDestLocked, this`iDestSchema, this`dbFileVers
      requires Shape()
    {
      Mirroring(src, nSrc, nSrcPgsz, dest, nDest, nDestPgsz, iNext, but, destMemDb)
    }

    ghost predicate Valid()
      reads this
    {
      && Shape()
      && (!Fatal(rc) ==> Mirrors(0) && CountOk() && (iNext > 1 ==> isAttached && bDestLocked))
    }

    /** The page count in the destination's header, once page 1 has been copied. */
    ghost predicate CountOk()
      reads this`src, this`nSrc, this`dest, this`nDest, this`iNext, this`bDestLocked, this`iDestSchema, this`dbFileVers, this`sizeCopied, this`pageOneWritten
      requires Shape()
    {
      iNext > 1 && nSrc > 0 ==> Reads(dest, nDestPgsz, 28, PageCount())
    }

    ghost function PageCount(): (r: seq<byte>)
      reads this`src, this`nSrc, this`dest, this`nDest, this`iNext, this`bDestLocked, this`iDestSchema, this`dbFileVers, this`sizeCopied, this`pageOneWritten
      requires Shape()
      ensures |r| == 4
    {
      if pageOneWritten && 1 in src then src[1][28..32] else Bytes4(sizeCopied)
    }

    constructor (nSrcPgsz: nat, nDestPgsz: nat, destMemDb: bool, destWal: bool, blank: seq<byte>,
                 src: map<nat, seq<byte>>, nSrc: nat, dest: map<nat, seq<byte>>, nDest: nat)
      requires PageSize(nSrcPgsz) && PageSize(nDestPgsz) && |blank| == 108 && nSrc < 0x8000_0000
      requires PagesOf(src, nSrcPgsz) && PagesOf(dest, nDestPgsz) && Whole(src, nSrc, nSrcPgsz)
      ensures Valid() && rc == OK && iNext == 1 && this.src == src && this.nSrc == nSrc && this.dest == dest
    {
      this.nSrcPgsz, this.nDestPgsz, this.destMemDb, this.destWal, this.blank := nSrcPgsz, nDestPgsz, destMemDb, destWal, blank;
      this.src, this.nSrc, this.dest, this.nDest, file := src, nSrc, dest, nDest, [];
      bDestLocked, iDestSchema, iNext, rc, nRemaining, nPagecount, isAttached := false, 0, 1, OK, 0, 0, false;
      dbFileVers, sizeCopied, pageOneWritten := 0, 0, false;
    }

    function Hdr(lo: nat, bUpdate: bool): (r: seq<byte>)
      reads this
      ensures |r| in {0, 4}
    {
      if lo == 0 && !bUpdate then Bytes4(nSrc) else []
    }

    /** Copies what a source page has for the destination page that holds byte iOff. */
    method CopyRound(iOff: nat, zSrcData: seq<byte>, bUpdate: bool, ghost lo: nat, ghost m0: map<nat, seq<byte>>, ghost n0: nat)
      requires Shape() && |zSrcData| == nSrcPgsz && Aligned(lo, nSrcPgsz, nSrcPgsz) && lo <= iOff < lo + nSrcPgsz && Aligned(iOff, nSrcPgsz, nDestPgsz)
      requires CopiedTo(m0, n0, dest, nDest, nDestPgsz, lo, iOff, zSrcData, Hdr(lo, bUpdate))
      modifies this`dest, this`nDest
      ensures Shape() && iOff + Least(nSrcPgsz, nDestPgsz) <= lo + nSrcPgsz
      ensures CopiedTo(m0, n0, dest, nDest, nDestPgsz, lo, iOff + Least(nSrcPgsz, nDestPgsz), zSrcData, Hdr(lo, bUpdate))
    {
      hide At, PageSize, Pending, PageOf, CopiedTo, Least, Aligned, Fits, Round;
      SizesPositive(nSrcPgsz, nDestPgsz);
      var iDest := PageOf(iOff, nDestPgsz);
      var page := if iDest in dest then dest[iDest] else Zeros(nDestPgsz);
      ChunkCopied(m0, n0, dest, nDest, nSrcPgsz, nDestPgsz, lo, iOff, zSrcData, Hdr(lo, bUpdate), page, Hdr(iOff, bUpdate));
      if iDest != Pending(nDestPgsz) {
        dest := dest[iDest := Round(page, nSrcPgsz, nDestPgsz, iOff, zSrcData, Hdr(iOff, bUpdate))];
        nDest := if iDest > nDest then iDest else nDest;
      }
      CopiedFacts(m0, n0, dest, nDest, nDestPgsz, lo, iOff + Least(nSrcPgsz, nDestPgsz), zSrcData, Hdr(lo, bUpdate));
    }

    /** Copies one source page over the destination pages it covers. */
    method BackupOnePage(iSrcPg: nat, zSrcData: seq<byte>, bUpdate: bool) returns (r: Rc)
      requires Shape() && |zSrcData| == nSrcPgsz && iSrcPg > 0
      modifies this`dest, this`nDest
      ensures r == if nSrcPgsz != nDestPgsz && destMemDb then READONLY else OK
      ensures Shape() && (r != OK ==> dest == old(dest) && nDest == old(nDest))
      ensures r == OK ==>
                var lo: nat := Base(iSrcPg, nSrcPgsz);
                CopiedTo(old(dest), old(nDest), dest, nDest, nDestPgsz, lo, lo + nSrcPgsz, zSrcData, Hdr(lo, bUpdate))
    {
      hide PageSize, Base, CopiedTo, PagesOf, Least, Aligned, Hdr;
      SizesPositive(nSrcPgsz, nDestPgsz);
      if nSrcPgsz != nDestPgsz && destMemDb { return READONLY; }
      var iOff: nat := Base(iSrcPg, nSrcPgsz);
      var iEnd: nat := iOff + nSrcPgsz;
      ghost var lo: nat, at: nat := iOff, iOff;
      LeastDivides(iSrcPg, nSrcPgsz, nDestPgsz);
      NothingCopied(dest, nDest, nDestPgsz, lo, zSrcData, Hdr(lo, bUpdate));
      while iOff < iEnd
        invariant Shape() && lo <= at && if iOff < iEnd then at == iOff && Aligned(at, nSrcPgsz, nDestPgsz) else at == iEnd
        invariant CopiedTo(old(dest), old(nDest), dest, nDest, nDestPgsz, lo, at, zSrcData, Hdr(lo, bUpdate))
        decreases iEnd - iOff
      {
        CopyRound(iOff, zSrcData, bUpdate, lo, old(dest), old(nDest));
        NextRound(nSrcPgsz, nDestPgsz, lo, iOff);
        at := at + Least(nSrcPgsz, nDestPgsz);
        iOff := iOff + nDestPgsz;
      }
      r := OK;
    }

    // ----- completion -----

    /** The destination once it is locked: an empty one gets its first page. */
    function AsLocked(): (m: map<nat, seq<byte>>)
      reads this`src, this`nSrc, this`dest, this`nDest, this`iNext, this`bDestLocked, this`iDestSchema, this`dbFileVers
      requires Shape()
      ensures 1 in m && |m[1]| >= 512
    {
      SizesPositive(nSrcPgsz, nDestPgsz);
      if nDest > 0 && 1 in dest then dest else dest[1 := Over(if 1 in dest then dest[1] else Zeros(nDestPgsz), 0, blank)]
    }

    /** newDatabase: the header of an empty database. */
    method NewDatabase()
      requires Shape()
      modifies this`dest, this`nDest
      ensures Shape() && 1 in dest && nDest == (if old(nDest) == 0 then 1 else old(nDest))
      ensures old(nDest == 0 || 1 !in dest) ==> dest == old(AsLocked())
      ensures forall o: nat :: At(dest, nDestPgsz, o) == if o < 108 then blank[o] else old(At(dest, nDestPgsz, o))
    {
      SizesPositive(nSrcPgsz, nDestPgsz);
      hide PageSize, Over, PageOf;
      ghost var m0 := dest;
      var page := if 1 in dest then dest[1] else Zeros(nDestPgsz);
      forall o: nat ensures At(m0[1 := Over(page, 0, blank)], nDestPgsz, o) == if o < 108 then blank[o] else At(m0, nDestPgsz, o) {
        hide At;
        WrittenByte(m0, nDestPgsz, 1, 0, blank, page, o);
        InPage(o, 1, nDestPgsz);
      }
      dest := dest[1 := Over(page, 0, blank)];
      nDest := if nDest == 0 then 1 else nDest;
    }

    /** The source's pages that share the destination's pending page go straight to the file. */
    method ExtraPages(f0: seq<byte>, nSrcPage: nat, iSize: nat, ghost want: map<nat, seq<byte>>) returns (f: seq<byte>, ghost upTo: nat)
      requires Shape() && PagesOf(want, nSrcPgsz) && (nSrcPage == 1 || (nSrcPage == nSrc && want == src))
      requires iSize == Base(nSrcPage + 1, nSrcPgsz) && |f0| >= 512
      requires Agrees(f0, want, nSrcPage, nSrcPgsz, nDestPgsz, PENDING_BYTE + nSrcPgsz, Marks())
      ensures Agrees(f, want, nSrcPage, nSrcPgsz, nDestPgsz, upTo, Marks()) && (upTo >= PENDING_BYTE + nDestPgsz || upTo >= iSize)
      ensures |f| >= 512 && forall o :: 0 <= o < 512 ==> f[o] == f0[o]
    {
      SmallEnough(nSrcPgsz);
      hide PageSize, PageOf, Pending, Agrees, Base;
      SizesPositive(nSrcPgsz, nDestPgsz);
      f := f0;
      var iEnd := if PENDING_BYTE + nDestPgsz < iSize then PENDING_BYTE + nDestPgsz else iSize;
      var iOff := PENDING_BYTE + nSrcPgsz;
      while iOff < iEnd
        invariant Agrees(f, want, nSrcPage, nSrcPgsz, nDestPgsz, iOff, Marks()) && PENDING_BYTE + nSrcPgsz <= iOff && Multiple(iOff, nSrcPgsz)
        invariant |f| >= 512 && forall o :: 0 <= o < 512 ==> f[o] == f0[o]
      {
        ExtraPage(iOff, nSrcPage, nSrcPgsz);
        ExtraWritten(f, src, nSrcPage, nSrcPgsz, nDestPgsz, iOff, Marks());
        f := FileWrite(f, iOff, src[PageOf(iOff, nSrcPgsz)]);
        iOff := iOff + nSrcPgsz;
      }
      upTo := iOff;
    }

    /** Flushes the destination and makes the file as long as the source's. */
    method Commit(nSrcPage: nat, ghost want: map<nat, seq<byte>>)
      requires Shape() && nSrcPage > 0 && nDest > 0 && PagesOf(want, nSrcPgsz) && Ready(want, nSrcPage, nSrcPgsz, dest, nDest, nDestPgsz, Marks())
      requires nSrcPage == 1 || (nSrcPage == nSrc && want == src)
      requires bDestLocked
      modifies this`file, this`dest, this`dbFileVers
      ensures Shape() && Image(file, want, nSrcPage, nSrcPgsz, Marks()) && |file| >= 512
      ensures dest == if destMemDb then old(dest) else Counted(old(dest), nDestPgsz, old(NextCounter()))
      ensures dbFileVers == if destMemDb || destWal then old(dbFileVers) else old(NextCounter())
      ensures forall o: nat :: o < 512 ==> file[o] == At(dest, nDestPgsz, o)
    {
      hide PageSize, At, PageOf, Pending, Ready, Image, Agrees, Whole, FileWrite, Counted, PagesOf;
      SizesPositive(nSrcPgsz, nDestPgsz);
      if !destMemDb {
        var counter := NextCounter();
        ReadyCounted(want, nSrcPage, nSrcPgsz, dest, nDest, nDestPgsz, counter, Marks());
        dest := Counted(dest, nDestPgsz, counter);
        if !destWal { dbFileVers := counter; }
      }
      if nSrcPgsz < nDestPgsz {
        var iSize: nat := Base(nSrcPage + 1, nSrcPgsz);
        BaseAtLeast(nDest + 1, nDestPgsz);
        BaseAtLeast(nSrcPage + 1, nSrcPgsz);
        FlushedSmall(want, nSrcPage, nSrcPgsz, dest, nDest, nDestPgsz, Marks());
        file := Flat(dest, nDestPgsz, Base(nDest + 1, nDestPgsz));
        ghost var upTo;
        file, upTo := ExtraPages(file, nSrcPage, iSize, want);
        Truncated(file, want, nSrcPage, nSrcPgsz, nDestPgsz, upTo, Marks());
        if |file| > iSize { file := file[..iSize]; }
      } else {
        BaseAtLeast(nSrcPage + 1, nSrcPgsz);
        FlushedLarge(want, nSrcPage, nSrcPgsz, dest, nDest, nDestPgsz, Marks());
        file := Flat(dest, nDestPgsz, DestTruncate(nSrcPage, nSrcPgsz, nDestPgsz) * nDestPgsz);
      }
    }

    /** The bytes of the header that the backup or the pager sets. */
    ghost predicate Header(count: seq<byte>)
      reads this`file, this`iDestSchema, this`dbFileVers
      requires iDestSchema < 0x1_0000_0000 && dbFileVers < 0x1_0000_0000
    {
      && |file| >= 512 && file[40..44] == Bytes4((iDestSchema + 1) % 0x1_0000_0000) && (destWal ==> file[18..20] == [2, 2])
      && (!destMemDb ==> file[24..28] == file[92..96] == Bytes4(LastCounter()) && file[96..100] == Bytes4(SQLITE_VERSION_NUMBER))
      && file[28..32] == count
    }

    lemma HeaderWritten(m: map<nat, seq<byte>>, count: seq<byte>)
      requires Shape() && |file| >= 512 && PagesOf(m, nDestPgsz) && nDestPgsz >= 512 && |count| == 4 && 1 in m
      requires forall o: nat :: o < 512 ==> file[o] == At(dest, nDestPgsz, o)
      requires dest == if destMemDb then m else Counted(m, nDestPgsz, LastCounter())
      requires Reads(m, nDestPgsz, 28, count) && Reads(m, nDestPgsz, 40, Bytes4((iDestSchema + 1) % 0x1_0000_0000))
      requires destWal ==> Reads(m, nDestPgsz, 18, [2, 2])
      ensures Header(count)
    {
      hide PageSize, At, Counted, Whole, PagesOf, Reads, Bytes4;
      var cookie := (iDestSchema + 1) % 0x1_0000_0000;
      if !destMemDb {
        CountedHeader(m, nDestPgsz, LastCounter());
        SameReads(m, dest, nDestPgsz, 28, count);
        SameReads(m, dest, nDestPgsz, 40, Bytes4(cookie));
        if destWal { SameReads(m, dest, nDestPgsz, 18, [2, 2]); }
        FirstBytes(file, dest, nDestPgsz, 24, Bytes4(LastCounter()));
        FirstBytes(file, dest, nDestPgsz, 92, Bytes4(LastCounter()));
        FirstBytes(file, dest, nDestPgsz, 96, Bytes4(SQLITE_VERSION_NUMBER));
      }
      FirstBytes(file, dest, nDestPgsz, 28, count);
      FirstBytes(file, dest, nDestPgsz, 40, Bytes4(cookie));
      if destWal { FirstBytes(file, dest, nDestPgsz, 18, [2, 2]); }
    }

    lemma BlankStays(m0: map<nat, seq<byte>>, m: map<nat, seq<byte>>)
      requires Shape() && |file| >= 512 && PagesOf(m0, nDestPgsz) && PagesOf(m, nDestPgsz) && nDestPgsz >= 512 && 1 in m
      requires forall o: nat :: o < 108 ==> At(m0, nDestPgsz, o) == blank[o]
      requires SameBut(m0, m, nDestPgsz, Marks()) && dest == (if destMemDb then m else Counted(m, nDestPgsz, LastCounter()))
      requires forall o: nat :: o < 512 ==> file[o] == At(dest, nDestPgsz, o)
      ensures forall o :: 0 <= o < 108 && !Rewritten(o, Marks()) ==> file[o] == blank[o]
    {
      hide PageSize, At, Counted, Whole, PagesOf;
      if !destMemDb { CountedHeader(m, nDestPgsz, LastCounter()); }
    }

    /** What a backup that is done promises about the destination file. */
    ghost predicate Complete()
      reads this
      requires Shape()
    {
      && Header(if nSrc > 0 then PageCount() else blank[28..32])
      && if nSrc > 0 then Image(file, src, nSrc, nSrcPgsz, Marks())
         else |file| == nSrcPgsz && forall o :: 0 <= o < 108 && !Rewritten(o, Marks()) ==> file[o] == blank[o]
    }

    /** The last part of sqlite3_backup_step, once every page has been copied. */
    method Finish()
      requires Shape() && bDestLocked && iNext > nSrc && Mirrors(0) && CountOk()
      modifies this`dest, this`nDest, this`file, this`dbFileVers
      ensures Shape() && Complete()
      ensures dbFileVers == if destMemDb || destWal then old(dbFileVers) else old(NextCounter())
    {
      hide PageSize, At, Mirroring, Stamped, Counted, Start, Image, Ready, Whole, PagesOf, Reads, Header, SameBut;
      SizesPositive(nSrcPgsz, nDestPgsz);
      ghost var count := if nSrc > 0 then PageCount() else blank[28..32];
      var nSrcPage := nSrc;
      if nSrcPage == 0 {
        NewDatabase();
        nSrcPage := 1;
        BlankCount();
      }
      ghost var m := dest;
      var cookie := (iDestSchema + 1) % 0x1_0000_0000;
      StampedHeader(m, nDestPgsz, cookie, Marks());
      dest := Stamped(dest, nDestPgsz, cookie, Marks());
      SameReads(m, dest, nDestPgsz, 28, count);
      ghost var want, stamped := if nSrc == 0 then Start(dest, nSrcPgsz, nDestPgsz) else src, dest;
      if nSrc == 0 {
        StartReady(dest, nDest, nSrcPgsz, nDestPgsz, Marks());
      } else {
        MirrorsReady(src, nSrc, nSrcPgsz, m, dest, nDest, nDestPgsz, iNext, Marks());
      }
      Commit(nSrcPage, want);
      HeaderWritten(stamped, count);
      if nSrc == 0 {
        StartLength(file, want, nSrcPgsz, Marks());
        BlankStays(m, stamped);
      }
    }

    lemma BlankCount()
      requires Shape() && nDestPgsz > 0 && forall o: nat :: o < 108 ==> At(dest, nDestPgsz, o) == blank[o]
      ensures Reads(dest, nDestPgsz, 28, blank[28..32])
    {
    }

    /** The destination's page size would have to change, but it cannot: in WAL mode never, in memory when a page is to be copied. */
    ghost predicate Refused(iNext: nat, nPage: int)
      reads this`nSrc
    {
      nSrcPgsz > 0 && nSrcPgsz != nDestPgsz && (destWal || (destMemDb && SomeDue(iNext, nPage, nSrc, nSrcPgsz)))
    }

    /** The change counter of the destination when it is locked. */
    function CounterRead(): nat
      reads this`dest, this`nDest
    {
      if nDest == 0 || 1 !in dest || |dest[1]| < 512 then 0 else Get4(dest[1], 24)
    }

    /** Copies up to nPage pages (all that remain, if nPage is negative) and, when none remains, completes the backup.
        srcWriting: the source has a write transaction open; destBusy: the destination cannot be locked; srcBusy: nobody reads the source
        through this connection and it cannot be locked for reading.  The last is found out when the destination has been locked. */
    method Step(nPage: int, srcWriting: bool, destBusy: bool, srcBusy: bool) returns (r: Rc)
      requires Valid()
      modifies this
      ensures Valid() && r == rc && src == old(src) && nSrc == old(nSrc)
      ensures old(Fatal(rc)) ==> r == old(rc) && dest == old(dest) && file == old(file)
      ensures !old(Fatal(rc)) ==>
                && (r == BUSY <==> srcWriting || (!old(bDestLocked) && destBusy) || srcBusy)
                && (bDestLocked <==> old(bDestLocked) || (!srcWriting && !destBusy))
                && (r == BUSY || (r == READONLY <==> Refused(old(iNext), nPage)))
                && (r in {BUSY, READONLY} ==> file == old(file) && dest == (if !old(bDestLocked) && bDestLocked then old(AsLocked()) else old(dest)))
                && (r == BUSY || (r == READONLY && destWal) ==> iNext == old(iNext))
                && (r == READONLY && !destWal ==> nSrcPgsz > 0 && FirstDue(iNext - 1, old(iNext), nPage, nSrc, nSrcPgsz))
                && (r in {OK, DONE, BUSY, READONLY})
                && (r in {OK, DONE} ==> iNext == CopiedUpTo(old(iNext), nPage, nSrc) && nPagecount == nSrc && (r == DONE <==> iNext > nSrc))
                && (r == OK ==> file == old(file) && isAttached && nRemaining == nSrc + 1 - iNext)
                && (r == DONE ==> Complete())
      ensures old(bDestLocked) || !bDestLocked ==> iDestSchema == old(iDestSchema)
      ensures !old(bDestLocked) && bDestLocked ==> iDestSchema == Get4(old(AsLocked())[1], 40)
      ensures dbFileVers == (var v := if !old(bDestLocked) && bDestLocked then old(CounterRead()) else old(dbFileVers);
                             if r == DONE && !old(Fatal(rc)) && !destMemDb && !destWal then (v + 1) % 0x1_0000_0000 else v)
    {
      hide PageSize, At, Mirroring, Complete, Over, PagesOf, Whole;
      SizesPositive(nSrcPgsz, nDestPgsz);
      hide Mirrors, CountOk, SomeDue, FirstDue, AsLocked, CounterRead, CopiedUpTo, Get4, Pending;
      r := rc;
      if !Fatal(rc) {
        r := LockBoth(srcWriting, destBusy, srcBusy);
        if r == OK && destWal && nSrcPgsz != nDestPgsz { r := READONLY; }
        if r == OK {
          r := CopyMore(nPage);
        } else {
          rc := r;
        }
      }
    }

    /** The first part of a step: locks the destination, if it is not locked already, and the source for reading. */
    method LockBoth(srcWriting: bool, destBusy: bool, srcBusy: bool) returns (r: Rc)
      requires Valid() && !Fatal(rc)
      modifies this`bDestLocked, this`iDestSchema, this`dest, this`nDest, this`dbFileVers
      ensures Valid() && r in {OK, BUSY} && (r == BUSY <==> srcWriting || (!old(bDestLocked) && destBusy) || srcBusy)
      ensures bDestLocked <==> old(bDestLocked) || (!srcWriting && !destBusy)
      ensures if !old(bDestLocked) && bDestLocked then
                dest == old(AsLocked()) && iDestSchema == Get4(old(AsLocked())[1], 40) && dbFileVers == old(CounterRead())
              else
                dest == old(dest) && iDestSchema == old(iDestSchema) && dbFileVers == old(dbFileVers)
    {
      hide PageSize, At, Mirroring, Complete, Over, PagesOf, Whole, Mirrors, CountOk;
      SizesPositive(nSrcPgsz, nDestPgsz);
      r := if srcWriting then BUSY else OK;
      if r == OK && !bDestLocked {
        r := LockDest(destBusy);
      }
      if r == OK && srcBusy { r := BUSY; }
    }

    /** A step, once both databases are locked. */
    method CopyMore(nPage: int) returns (r: Rc)
      requires Valid() && !Fatal(rc) && bDestLocked
      modifies this`iNext, this`dest, this`nDest, this`nPagecount, this`nRemaining, this`isAttached, this`rc, this`file, this`dbFileVers,
               this`sizeCopied, this`pageOneWritten
      ensures Valid() && r == rc && r in {OK, DONE, READONLY} && nSrcPgsz > 0
      ensures r == READONLY <==> nSrcPgsz != nDestPgsz && destMemDb && SomeDue(old(iNext), nPage, nSrc, nSrcPgsz)
      ensures r == READONLY ==> FirstDue(iNext - 1, old(iNext), nPage, nSrc, nSrcPgsz) && dest == old(dest) && nDest == old(nDest) && file == old(file)
      ensures r != READONLY ==> iNext == CopiedUpTo(old(iNext), nPage, nSrc) && nPagecount == nSrc && (r == DONE <==> iNext > nSrc)
      ensures r == OK ==> file == old(file) && isAttached && nRemaining == nSrc + 1 - iNext
      ensures r == DONE ==> Complete()
      ensures dbFileVers == if r == DONE && !destMemDb && !destWal then old(NextCounter()) else old(dbFileVers)
    {
      hide PageSize, At, Mirroring, Complete, PagesOf, Whole, CountOk, Mirrors, SomeDue, FirstDue, AsLocked, CounterRead, Get4, Pending;
      SizesPositive(nSrcPgsz, nDestPgsz);
      r := CopyPages(nPage);
      if r == OK { r := Report(); }
      rc := r;
      if r == DONE { Finish(); }
    }

    /** After the pages of a step have been copied. */
    method Report() returns (r: Rc)
      requires Shape()
      modifies this`nPagecount, this`nRemaining, this`isAttached
      ensures r == (if iNext > nSrc then DONE else OK) && nPagecount == nSrc && (r == OK ==> isAttached && nRemaining == nSrc + 1 - iNext)
    {
      nPagecount := nSrc;
      nRemaining := (nSrc + 1 - iNext) % 0x1_0000_0000;
      if iNext > nSrc {
        r := DONE;
      } else {
        if !isAttached { isAttached := true; }
        r := OK;
      }
    }

    /** Begins the exclusive transaction on the destination; an empty destination gets its first page. */
    method LockDest(destBusy: bool) returns (r: Rc)
      requires Valid() && !bDestLocked && !Fatal(rc)
      modifies this`bDestLocked, this`iDestSchema, this`dest, this`nDest, this`dbFileVers
      ensures Valid() && r == (if destBusy then BUSY else OK) && bDestLocked == (r == OK)
      ensures r != OK ==> dest == old(dest) && nDest == old(nDest) && iDestSchema == old(iDestSchema) && dbFileVers == old(dbFileVers)
      ensures r == OK ==> dest == old(AsLocked()) && nDest == (if old(nDest) == 0 then 1 else old(nDest))
      ensures r == OK ==> iDestSchema == Get4(old(AsLocked())[1], 40) && dbFileVers == old(CounterRead())
    {
      hide PageSize, At, Due, Over;
      SizesPositive(nSrcPgsz, nDestPgsz);
      if destBusy { return BUSY; }
      dbFileVers := if nDest == 0 || 1 !in dest then 0 else Get4(dest[1], 24);
      if nDest == 0 || 1 !in dest { NewDatabase(); }
      bDestLocked := true;
      iDestSchema := Get4(dest[1], 40);
      NothingDue();
      r := OK;
    }

    lemma NothingDue()
      requires Shape() && iNext == 1
      ensures Mirrors(0)
    {
      hide PageSize;
      SizesPositive(nSrcPgsz, nDestPgsz);
    }

    /** Copies the next page, unless it is the source's pending page. */
    method CopyNext() returns (r: Rc)
      requires Shape() && bDestLocked && Mirrors(0) && CountOk() && iNext <= nSrc
      modifies this`iNext, this`dest, this`nDest, this`sizeCopied, this`pageOneWritten
      ensures Shape() && iNext == old(iNext) + 1 && nSrcPgsz > 0
      ensures r == if nSrcPgsz != nDestPgsz && destMemDb && old(iNext) != Pending(nSrcPgsz) then READONLY else OK
      ensures if r == OK then Mirrors(0) && CountOk() else dest == old(dest) && nDest == old(nDest)
      ensures nSrcPgsz != nDestPgsz && destMemDb ==> dest == old(dest) && nDest == old(nDest)
    {
      hide PageSize, At, Mirroring, Pending, CopiedTo, Base, Reads;
      SizesPositive(nSrcPgsz, nDestPgsz);
      PendingHigh(nSrcPgsz);
      r := OK;
      var iSrcPg := iNext;
      NextMirrors(src, nSrc, nSrcPgsz, dest, nDest, nDestPgsz, iSrcPg, destMemDb);
      if iSrcPg != Pending(nSrcPgsz) {
        ghost var m0, n0 := dest, nDest;
        ghost var count := PageCount();
        r := BackupOnePage(iSrcPg, src[iSrcPg], false);
        if r == OK {
          CopyMirrors(src, nSrc, nSrcPgsz, m0, n0, dest, nDest, nDestPgsz, iSrcPg + 1, iSrcPg, Hdr(Base(iSrcPg, nSrcPgsz), false), destMemDb);
          CountCopied(m0, n0, iSrcPg, false);
          assert iSrcPg > 1 ==> Reads(m0, nDestPgsz, 28, count) && count == PageCount();
          if iSrcPg == 1 { sizeCopied, pageOneWritten := nSrc, false; }
        }
      }
      iNext := iNext + 1;
    }

    /** The copying loop. */
    method CopyPages(nPage: int) returns (r: Rc)
      requires Valid() && !Fatal(rc) && bDestLocked
      modifies this`iNext, this`dest, this`nDest, this`sizeCopied, this`pageOneWritten
      ensures Shape() && r in {OK, READONLY} && nSrcPgsz > 0
      ensures r == READONLY <==> nSrcPgsz != nDestPgsz && destMemDb && SomeDue(old(iNext), nPage, nSrc, nSrcPgsz)
      ensures r == READONLY ==> FirstDue(iNext - 1, old(iNext), nPage, nSrc, nSrcPgsz) && dest == old(dest) && nDest == old(nDest)
      ensures r == OK ==> Mirrors(0) && CountOk() && iNext == CopiedUpTo(old(iNext), nPage, nSrc)
    {
      hide Mirrors, CountOk, PageSize, Pending;
      SizesPositive(nSrcPgsz, nDestPgsz);
      ghost var refused := nSrcPgsz != nDestPgsz && destMemDb;
      r := OK;
      var ii := 0;
      while (nPage < 0 || ii < nPage) && iNext <= nSrc && r == OK
        invariant Shape() && bDestLocked && r in {OK, READONLY} && iNext == old(iNext) + ii && (iNext == old(iNext) || iNext <= nSrc + 1)
        invariant r == READONLY ==> refused && FirstDue(iNext - 1, old(iNext), nPage, nSrc, nSrcPgsz)
        invariant r == OK ==> Mirrors(0) && CountOk() && (refused ==> forall q: nat :: q < iNext ==> !DueAt(q, old(iNext), nPage, nSrc, nSrcPgsz))
        invariant refused ==> dest == old(dest) && nDest == old(nDest)
        invariant nPage >= 0 ==> ii <= nPage
        decreases nSrc + 1 - iNext
      {
        r := CopyNext();
        ii := ii + 1;
      }
    }

    // ----- the source changes -----

    /** A write to the source, reported to the backup.  A page past the end makes the source grow; only its pending page may be skipped. */
    method SourceWritten(iPage: nat, aData: seq<byte>)
      requires Valid() && iPage > 0 && iPage != Pending(nSrcPgsz) && |aData| == nSrcPgsz && iPage < 0x8000_0000
      requires iPage <= nSrc + 1 || (iPage == nSrc + 2 && nSrc + 1 == Pending(nSrcPgsz))
      modifies this`src, this`nSrc, this`dest, this`nDest, this`rc, this`pageOneWritten
      ensures Valid() && src == old(src)[iPage := aData] && nSrc == if iPage > old(nSrc) then iPage else old(nSrc)
      ensures rc == if old(Copied(iPage)) && destMemDb && nSrcPgsz != nDestPgsz then READONLY else old(rc)
      ensures !old(Copied(iPage)) ==> dest == old(dest) && nDest == old(nDest)
    {
      hide PageSize, Pending, Mirroring;
      SizesPositive(nSrcPgsz, nDestPgsz);
      PendingHigh(nSrcPgsz);
      if !Fatal(rc) { WriteMirrors(src, nSrc, nSrcPgsz, dest, nDest, nDestPgsz, iNext, iPage, aData, destMemDb); }
      src := src[iPage := aData];
      nSrc := if iPage > nSrc then iPage else nSrc;
      BackupUpdate(iPage, aData);
    }

    /** The backup is under way and has this page already. */
    predicate Copied(iPage: nat)
      reads this`isAttached, this`rc, this`iNext
    {
      isAttached && !Fatal(rc) && iPage < iNext
    }

    /** sqlite3BackupUpdate, for this backup. */
    method BackupUpdate(iPage: nat, aData: seq<byte>)
      requires Shape() && iPage > 0 && |aData| == nSrcPgsz && iPage in src && src[iPage] == aData
      requires !Fatal(rc) ==> Mirrors(iPage) && (iPage > 1 ==> CountOk()) && (iNext > 1 ==> isAttached && bDestLocked)
      modifies this`dest, this`nDest, this`rc, this`pageOneWritten
      ensures Valid() && rc == if old(Copied(iPage)) && destMemDb && nSrcPgsz != nDestPgsz then READONLY else old(rc)
      ensures !old(Copied(iPage)) ==> dest == old(dest) && nDest == old(nDest)
    {
      hide PageSize, Base, CopiedTo, Mirroring;
      SizesPositive(nSrcPgsz, nDestPgsz);
      if isAttached && !Fatal(rc) && iPage < iNext {
        ghost var m0, n0 := dest, nDest;
        var r := BackupOnePage(iPage, aData, true);
        if r != OK {
          rc := r;
        } else {
          CopyMirrors(src, nSrc, nSrcPgsz, m0, n0, dest, nDest, nDestPgsz, iNext, iPage, Hdr(Base(iPage, nSrcPgsz), true), destMemDb);
          CountCopied(m0, n0, iPage, true);
          if iPage == 1 { pageOneWritten := true; }
        }
      } else if !Fatal(rc) {
        LaterMirrors(iPage);
      }
    }

    /** What copying page p does to the page count in the header. */
    lemma CountCopied(m0: map<nat, seq<byte>>, n0: nat, p: nat, bUpdate: bool)
      requires Shape() && p > 0 && p in src
      requires CopiedTo(m0, n0, dest, nDest, nDestPgsz, Base(p, nSrcPgsz), Base(p, nSrcPgsz) + nSrcPgsz, src[p], Hdr(Base(p, nSrcPgsz), bUpdate))
      ensures PagesOf(m0, nDestPgsz) && nDestPgsz > 0
      ensures p == 1 ==> Reads(dest, nDestPgsz, 28, if bUpdate then src[1][28..32] else Bytes4(nSrc))
      ensures p > 1 ==> forall b: seq<byte> :: |b| == 4 && Reads(m0, nDestPgsz, 28, b) ==> Reads(dest, nDestPgsz, 28, b)
    {
      hide CopiedTo, Reads, PageSize, Bytes4;
      SizesPositive(nSrcPgsz, nDestPgsz);
      CopiedPages(m0, n0, dest, nDest, nDestPgsz, Base(p, nSrcPgsz), Base(p, nSrcPgsz) + nSrcPgsz, src[p], Hdr(Base(p, nSrcPgsz), bUpdate));
      CopiedCount(m0, n0, dest, nDest, nSrcPgsz, nDestPgsz, p, src[p], Hdr(Base(p, nSrcPgsz), bUpdate));
      if p > 1 { BaseAtLeast(p, nSrcPgsz); }
    }

    /** The cache may write page 1 of the destination to its file at any time before the commit. */
    method SpillPageOne()
      requires Valid() && bDestLocked && !destMemDb
      modifies this`dest, this`dbFileVers
      ensures Valid() && dbFileVers == if destWal then old(dbFileVers) else old(NextCounter())
      ensures nDestPgsz >= 512 && dest == Counted(old(dest), nDestPgsz, old(NextCounter()))
    {
      hide PageSize, At, Mirroring, Counted, Reads;
      SizesPositive(nSrcPgsz, nDestPgsz);
      ghost var m := dest;
      var counter := NextCounter();
      CountedHeader(m, nDestPgsz, counter);
      if !Fatal(rc) {
        MirrorsCounted(src, nSrc, nSrcPgsz, m, nDest, nDestPgsz, iNext, counter);
        if iNext > 1 && nSrc > 0 { SameReads(m, Counted(m, nDestPgsz, counter), nDestPgsz, 28, PageCount()); }
      }
      dest := Counted(dest, nDestPgsz, counter);
      if !destWal { dbFileVers := counter; }
    }

    /** A page not copied yet does not matter. */
    lemma LaterMirrors(p: nat)
      requires Shape() && Mirrors(p) && iNext <= p
      ensures Mirrors(0)
    {
      hide PageSize;
      SizesPositive(nSrcPgsz, nDestPgsz);
    }

    /** sqlite3BackupRestart, for this backup: the source was changed by someone else in unknown ways. */
    method BackupRestart(changed: map<nat, seq<byte>>, nChanged: nat)
      requires Valid() && PagesOf(changed, nSrcPgsz) && Whole(changed, nChanged, nSrcPgsz) && nChanged < 0x8000_0000
      modifies this`src, this`nSrc, this`iNext
      ensures Valid() && iNext == 1 && src == changed && nSrc == nChanged
    {
      src, nSrc := changed, nChanged;
      iNext := 1;
    }

    /** The source shrinks. */
    method SourceTruncated(n: nat)
      requires Valid() && n <= nSrc
      modifies this`nSrc
      ensures Valid() && nSrc == n
    {
      hide PageSize, PageOf, Pending, At;
      nSrc := n;
    }
  }

  lemma NextRound(s: nat, d: nat, lo: nat, at: nat)
    requires s > 0 && d > 0 && Aligned(at, s, d) && lo <= at && at + Least(s, d) <= lo + s
    ensures (if at + d < lo + s then at + d else lo + s) == at + Least(s, d)
    ensures at + d < lo + s ==> Aligned(at + d, s, d)
  {
    if d <= s { NextMultiple(at, d); }
  }

  lemma LeastDivides(pg: nat, s: nat, d: nat)
    requires PageSize(s) && PageSize(d) && pg > 0
    ensures Aligned(Base(pg, s), s, d) && Aligned(Base(pg, s), s, s)
  {
    SizesDivide(s, d);
    SizesDivide(d, s);
    BaseMultiple(pg, s);
    hide PageSize;
    MultipleOfMultiple(Base(pg, s), Least(s, d), s);
  }

  lemma OnePageOnly(at: nat, s: nat, d: nat)
    requires PageSize(s) && PageSize(d) && at % Least(s, d) == 0
    ensures forall o: nat :: at <= o < at + Least(s, d) ==> PageOf(o, d) == PageOf(at, d)
  {
    SizesDivide(s, d);
    SizesDivide(d, s);
    forall o: nat | at <= o < at + Least(s, d) ensures PageOf(o, d) == PageOf(at, d) {
      InStretch(at, Least(s, d), d, o);
    }
  }
}
