/** A b-tree page in memory: cells inserted, dropped, and the page read back. */
module MemPages {
  import opened Bytes
  import opened CellFormat
  import opened PageSpace
  import opened PageBytes
  import opened SlottedPage
  import opened PageDefrag
  import opened PageEdit

  // ----- shifting cell pointers -----

  /** Moves pointers i .. n-1 up by one place. */
  method ShiftUp(data: array<byte>, off: nat, i: nat, n: nat)
    requires i <= n && off + 2 * n + 2 <= data.Length
    modifies data
    ensures data[..] == Over(old(data[..]), off + 2 * i + 2, old(data[off + 2 * i..off + 2 * n]))
  {
    hide Over;
    ghost var d0, j := data[..], n;
    var ins, end := off + 2 * i, off + 2 * n;
    var ptr := end;
    SpliceNone(d0, ptr + 2, d0[ptr..end]);
    while ptr > ins
      invariant i <= j <= n && ptr == off + 2 * j
      invariant data[..] == Over(d0, ptr + 2, d0[ptr..end])
      decreases j
    {
      SpliceBefore(d0, ptr, end);
      PutPair(data, ptr, data[ptr - 2], data[ptr - 1]);
      ptr, j := ptr - 2, j - 1;
    }
  }

  /** Stores a two-byte pointer. */
  method PutPair(data: array<byte>, a: nat, x: byte, y: byte)
    requires a + 2 <= data.Length
    modifies data
    ensures data[..] == old(data[..])[a := x][a + 1 := y]
  {
    data[a], data[a + 1] := x, y;
  }

  lemma SpliceBefore(d: seq<byte>, lo: nat, hi: nat)
    requires 2 <= lo <= hi && hi + 2 <= |d|
    ensures var e := Over(d, lo + 2, d[lo..hi]);
      e[lo := e[lo - 2]][lo + 1 := e[lo - 1]] == Over(d, lo, d[lo - 2..hi])
  {
    assert d[lo - 2..hi] == [d[lo - 2], d[lo - 1]] + d[lo..hi];
  }

  /** Moves pointers i+1 .. n-1 down by one place. */
  method ShiftDown(data: array<byte>, off: nat, i: nat, n: nat)
    requires i < n && off + 2 * n <= data.Length
    modifies data
    ensures data[..] == Over(old(data[..]), off + 2 * i, old(data[off + 2 * i + 2..off + 2 * n]))
  {
    hide Over;
    ghost var d0, j := data[..], i;
    var ptr, end := off + 2 * i, off + 2 * n - 2;
    ghost var ins := ptr;
    SpliceNone(d0, ins, d0[ins + 2..ptr + 2]);
    while ptr < end
      invariant i <= j <= n - 1 && ptr == off + 2 * j
      invariant data[..] == Over(d0, ins, d0[ins + 2..ptr + 2])
    {
      SpliceTwo(d0, ins, ins + 2, ptr + 2);
      PutPair(data, ptr, data[ptr + 2], data[ptr + 3]);
      ptr, j := ptr + 2, j + 1;
    }
  }

  lemma SpliceNone(d: seq<byte>, a: nat, s: seq<byte>)
    requires a <= |d| && s == []
    ensures Over(d, a, s) == d
  {
  }

  lemma SpliceTwo(d: seq<byte>, a: nat, lo: nat, hi: nat)
    requires a <= lo <= hi && hi + 2 <= |d| && a + hi - lo + 2 <= |d|
    ensures var e, k := Over(d, a, d[lo..hi]), a + hi - lo;
      e[k := d[hi]][k + 1 := d[hi + 1]] == Over(d, a, d[lo..hi + 2])
  {
    var e, k := Over(d, a, d[lo..hi]), a + hi - lo;
    assert d[lo..hi + 2] == d[lo..hi] + [d[hi], d[hi + 1]];
  }

  // ----- the page with a cell more -----

  function WithPointer(d: seq<byte>, off: nat, i: nat, n: nat, hdr: nat, start: nat): (r: seq<byte>)
    requires i <= n && off + 2 * n + 2 <= |d| && hdr + 5 <= off
    ensures |r| == |d|
  {
    Put2(Put2(Over(d, off + 2 * i + 2, d[off + 2 * i..off + 2 * n]), off + 2 * i, start), hdr + 3, n + 1)
  }

  lemma WithPointerReads(d: seq<byte>, off: nat, i: nat, n: nat, hdr: nat, start: nat, j: nat)
    requires i <= n && off + 2 * n + 2 <= |d| && hdr + 5 <= off && start < 0x1_0000 && n < 0xffff && j <= n
    ensures var d' := WithPointer(d, off, i, n, hdr, start);
      && Get2(d', off + 2 * j) == (if j < i then Get2(d, off + 2 * j) else if j == i then start else Get2(d, off + 2 * j - 2))
      && Get2(d', hdr + 3) == n + 1
  {
    var d1 := Over(d, off + 2 * i + 2, d[off + 2 * i..off + 2 * n]);
    var d2 := Put2(d1, off + 2 * i, start);
    OneRead(d1, off + 2 * i, start);
    OneRead(d2, hdr + 3, n + 1);
    OneOther(d2, hdr + 3, n + 1, off + 2 * j);
    if j != i { OneOther(d1, off + 2 * i, start, off + 2 * j); }
  }

  lemma WithPointerSame(d: seq<byte>, off: nat, i: nat, n: nat, hdr: nat, start: nat, a: nat, b: nat)
    requires i <= n && off + 2 * n + 2 <= |d| && hdr + 5 <= off && a <= b <= |d|
    requires b <= hdr + 3 || (hdr + 5 <= a && b <= off) || off + 2 * n + 2 <= a
    ensures var d' := WithPointer(d, off, i, n, hdr, start); SameOn(d, d', a, b) && d'[a..b] == d[a..b]
  {
  }

  lemma AreaReordered(usable: nat, top: nat, frag: nat, cells: seq<Span>, s: Span, i: nat, blocks: seq<Span>)
    requires Area(usable, top, frag, cells + [s], blocks) && i <= |cells|
    ensures Area(usable, top, frag, Insert(cells, i, s), blocks)
  {
    hide Total;
    var a, b := cells + [s], Insert(cells, i, s);
    TotalAppend(cells, [s]);
    TotalOne(s);
    InsertTotal(cells, i, s);
    assert a[|cells|] == s;
    forall j | 0 <= j < |b| ensures b[j] == a[Moved0(|cells|, i, j)] {}
    forall j, k | 0 <= j < k < |b| ensures Apart(b[j], b[k]) { assert b[j] == a[Moved0(|cells|, i, j)] && b[k] == a[Moved0(|cells|, i, k)]; }
    forall j, k | 0 <= j < |b| && 0 <= k < |blocks| ensures Apart(b[j], blocks[k]) { assert b[j] == a[Moved0(|cells|, i, j)]; }
  }

  function Moved0(n: nat, i: nat, j: nat): nat { if j < i then j else if j == i then n else j - 1 }

  lemma SameCellsTotal(d0: seq<byte>, d: seq<byte>, f: Format, hdr: nat, cells0: seq<Span>, cells: seq<Span>)
    requires SameCells(d0, d, f, hdr, cells0, cells)
    ensures Total(cells) == Total(cells0)
  {
    forall i | 0 <= i < |cells| ensures cells[i].size == cells0[i].size {
      assert Contents(d, cells)[i] == Contents(d0, cells0)[i];
    }
    SameTotal(cells, cells0);
  }

  /** The bytes once c has been copied to s and its pointer put in place i. */
  function InsertedBytes(d: seq<byte>, f: Format, hdr: nat, cells: seq<Span>, i: nat, s: Span, c: seq<byte>): (r: seq<byte>)
    requires i <= |cells| && CellOffset(f, hdr) + 2 * |cells| + 2 <= |d| && s.start + |c| <= |d|
    ensures |r| == |d|
  {
    WithPointer(Over(d, s.start, c), CellOffset(f, hdr), i, |cells|, hdr, s.start)
  }

  /** Everything but the cell and the pointers is as before. */
  lemma InsertedSame(d: seq<byte>, f: Format, hdr: nat, cells: seq<Span>, i: nat, s: Span, c: seq<byte>, a: nat, b: nat)
    requires i <= |cells| && CellOffset(f, hdr) + 2 * |cells| + 2 <= s.start && s.End() <= |d| && |c| == s.size && a <= b <= |d|
    requires b <= hdr + 3 || (hdr + 5 <= a && b <= CellOffset(f, hdr)) || CellOffset(f, hdr) + 2 * |cells| + 2 <= a
    requires b <= s.start || s.End() <= a
    ensures var d' := InsertedBytes(d, f, hdr, cells, i, s, c); SameOn(d, d', a, b) && d'[a..b] == d[a..b]
  {
    hide WithPointer, Over;
    var d1 := Over(d, s.start, c);
    SameSlice(d, d1, a, b);
    WithPointerSame(d1, CellOffset(f, hdr), i, |cells|, hdr, s.start, a, b);
  }

  lemma InsertedContents(d: seq<byte>, f: Format, hdr: nat, cells: seq<Span>, i: nat, s: Span, c: seq<byte>, j: nat)
    requires i <= |cells| && CellOffset(f, hdr) + 2 * |cells| + 2 <= s.start && s.End() <= |d| && |c| == s.size && j <= |cells|
    requires AllApart(cells + [s]) && forall k :: 0 <= k < |cells| ==> CellOffset(f, hdr) + 2 * |cells| + 2 <= cells[k].start && cells[k].End() <= |d|
    ensures var d', p := InsertedBytes(d, f, hdr, cells, i, s, c), Insert(cells, i, s)[j];
      && p.End() <= |d| && Content(d', p) == if j == i then c else Content(d, cells[if j < i then j else j - 1])
  {
    hide WithPointer, Over;
    if j == i {
      var d1 := Over(d, s.start, c);
      WithPointerSame(d1, CellOffset(f, hdr), i, |cells|, hdr, s.start, s.start, s.End());
    } else {
      var k := if j < i then j else j - 1;
      assert Apart((cells + [s])[k], (cells + [s])[|cells|]);
      InsertedSame(d, f, hdr, cells, i, s, c, cells[k].start, cells[k].End());
    }
  }

  lemma InsertedPointer(d: seq<byte>, f: Format, hdr: nat, cells: seq<Span>, i: nat, s: Span, c: seq<byte>, j: nat)
    requires i <= |cells| && CellOffset(f, hdr) + 2 * |cells| + 2 <= s.start && s.End() <= |d| <= 0x1_0000 && |c| == s.size > 0 && j <= |cells|
    requires Pointed(d, CellOffset(f, hdr), cells)
    ensures var d' := InsertedBytes(d, f, hdr, cells, i, s, c);
      Get2(d', CellOffset(f, hdr) + 2 * j) == Insert(cells, i, s)[j].start && Get2(d', hdr + 3) == |cells| + 1
  {
    hide WithPointer, Over, Get2;
    var off, d1 := CellOffset(f, hdr), Over(d, s.start, c);
    WithPointerReads(d1, off, i, |cells|, hdr, s.start, j);
    if j != i {
      var k := if j < i then j else j - 1;
      SameSlice(d, d1, off + 2 * k, off + 2 * k + 2);
      Get2Slice(d, d1, off + 2 * k);
    }
  }

  lemma Get2Slice(d: seq<byte>, d': seq<byte>, a: nat)
    requires |d| == |d'| && a + 2 <= |d| && d'[a..a + 2] == d[a..a + 2]
    ensures Get2(d', a) == Get2(d, a)
  {
    assert d'[a] == d'[a..a + 2][0] && d'[a + 1] == d'[a..a + 2][1];
  }

  lemma InsertedLaid(d: seq<byte>, f: Format, hdr: nat, cells: seq<Span>, i: nat, s: Span, c: seq<byte>, blocks: seq<Span>, lost: nat)
    requires Laid(d, f.usable, hdr, CellOffset(f, hdr) + 2 * |cells| + 2, cells + [s], blocks, lost) && i <= |cells| && |c| == s.size
    ensures s.End() <= |d|
    ensures Laid(InsertedBytes(d, f, hdr, cells, i, s, c), f.usable, hdr, CellOffset(f, hdr) + 2 * |cells| + 2, Insert(cells, i, s), blocks, lost)
  {
    hide InsertedBytes, Insert, Chained, Total, AllApart, Ascending, NoneMeets, Area;
    var top, frag := Top(d, hdr), d[hdr + 7] + lost;
    BlocksApart(f.usable, top, frag, cells + [s], blocks);
    assert (cells + [s])[|cells|] == s;
    AreaReordered(f.usable, top, frag, cells, s, i, blocks);
    var d' := InsertedBytes(d, f, hdr, cells, i, s, c);
    InsertedSame(d, f, hdr, cells, i, s, c, hdr + 1, hdr + 3);
    InsertedSame(d, f, hdr, cells, i, s, c, hdr + 5, hdr + 8);
    InsertedChain(d, f, hdr, cells, i, s, c, blocks);
  }

  lemma InsertedChain(d: seq<byte>, f: Format, hdr: nat, cells: seq<Span>, i: nat, s: Span, c: seq<byte>, blocks: seq<Span>)
    requires i <= |cells| && CellOffset(f, hdr) + 2 * |cells| + 2 <= s.start && s.End() <= |d| && |c| == s.size && hdr + 12 <= |d|
    requires Within(blocks, CellOffset(f, hdr) + 2 * |cells| + 2, |d|) && NoneMeets(cells + [s], blocks)
    requires Within(blocks, hdr + 8, |d|) && Chained(d, hdr, blocks)
    ensures Chained(InsertedBytes(d, f, hdr, cells, i, s, c), hdr, blocks)
  {
    hide InsertedBytes, Chained;
    var d' := InsertedBytes(d, f, hdr, cells, i, s, c);
    InsertedSame(d, f, hdr, cells, i, s, c, hdr + 1, hdr + 3);
    forall k | 0 <= k < |blocks| ensures SameOn(d, d', blocks[k].start, blocks[k].start + 4) {
      assert Apart((cells + [s])[|cells|], blocks[k]);
      InsertedSame(d, f, hdr, cells, i, s, c, blocks[k].start, blocks[k].start + 4);
    }
    ChainElsewhere(d, d', hdr, blocks);
  }

  /** a with the elements from p up to q replaced by b. */
  function Put<T>(a: seq<T>, p: nat, q: nat, b: seq<T>): seq<T>
    requires p <= q <= |a|
  {
    a[..p] + b + a[q..]
  }

  lemma Inserted(d0: seq<byte>, d: seq<byte>, f: Format, hdr: nat, nFree: nat, cells0: seq<Span>, blocks0: seq<Span>,
                 cells: seq<Span>, s: Span, blocks: seq<Span>, i: nat, c: seq<byte>, lost0: nat, lost: nat)
    requires PageOk(d0, f, hdr, nFree, cells0, blocks0, lost0) && SetAside(d0, d, f, hdr, cells0, cells, s, blocks, lost)
    requires i <= |cells| && IsCell(f, c) && |c| == s.size && lost0 <= lost && |c| + lost - lost0 + 2 <= nFree
    ensures CellOffset(f, hdr) + 2 * |cells| + 2 <= |d| && s.End() <= |d| && InPage(d0, cells0)
    ensures var d', cells' := InsertedBytes(d, f, hdr, cells, i, s, c), Insert(cells, i, s);
      && PageOk(d', f, hdr, nFree - 2 - |c| - (lost - lost0), cells', blocks, lost) && Frame(d0, d', f, hdr)
      && InPage(d', cells') && Contents(d', cells') == Put(Contents(d0, cells0), i, i, [c])
  {
    hide InsertedBytes, Area, Chained, Total, Insert, Pointed, AllCells, Spaced, Contents, InPage, Frame, Put, Get2, IsCell;
    UsedBounds(d, f.usable, hdr, CellOffset(f, hdr) + 2 * |cells| + 2, cells, s, blocks, lost);
    var d', cells' := InsertedBytes(d, f, hdr, cells, i, s, c), Insert(cells, i, s);
    PageTotals(d0, f, hdr, nFree, cells0, blocks0, lost0);
    SameCellsTotal(d0, d, f, hdr, cells0, cells);
    InsertedLaid(d, f, hdr, cells, i, s, c, blocks, lost);
    InsertTotal(cells, i, s);
    LaidTotal(d', f.usable, hdr, CellOffset(f, hdr) + 2 * |cells| + 2, cells', blocks, lost);
    InsertedCells(d, f, hdr, cells, i, s, c);
    InsertedFrame(d0, d, f, hdr, cells, i, s, c);
    PutAllCells(f, Contents(d0, cells0), i, c);
    LengthOfInsert(cells, i, s);
  }

  /** Only the first n of the bytes set aside will be the cell's; the others are written and lost. */
  lemma Trimmed(d0: seq<byte>, d: seq<byte>, f: Format, hdr: nat, cells0: seq<Span>, cells: seq<Span>, s: Span, n: nat, t: seq<byte>,
                blocks: seq<Span>, lost: nat)
    requires SetAside(d0, d, f, hdr, cells0, cells, s, blocks, lost) && 4 <= n && n + |t| == s.size
    ensures s.End() <= |d|
    ensures SetAside(d0, Over(d, s.start + n, t), f, hdr, cells0, cells, Span(s.start, n), blocks, lost + |t|)
  {
    hide Area, Chained, Total, Pointed, AllCells, Spaced, Contents, Frame, Get2, AllApart, Ascending, NoneMeets;
    var off := CellOffset(f, hdr);
    UsedBounds(d, f.usable, hdr, off + 2 * |cells| + 2, cells, s, blocks, lost);
    var d' := Over(d, s.start + n, t);
    AreaTrimmed(f.usable, Top(d, hdr), d[hdr + 7] + lost, cells, s, n, blocks);
    BlocksApart(f.usable, Top(d, hdr), d[hdr + 7] + lost, cells + [s], blocks);
    TrimmedFields(d, d', hdr, s);
    TrimmedChain(d, d', hdr, cells, s, blocks);
    TrimmedCells(d0, d, d', f, hdr, cells0, cells, s);
  }

  lemma TrimmedFields(d: seq<byte>, d': seq<byte>, hdr: nat, s: Span)
    requires |d| == |d'| && hdr + 12 <= |d| && hdr + 8 <= s.start && forall b :: 0 <= b < |d| && (b < s.start || s.End() <= b) ==> d'[b] == d[b]
    ensures Get2(d', hdr + 3) == Get2(d, hdr + 3) && d'[hdr + 7] == d[hdr + 7] && Top(d', hdr) == Top(d, hdr)
  {
  }

  lemma TrimmedChain(d: seq<byte>, d': seq<byte>, hdr: nat, cells: seq<Span>, s: Span, blocks: seq<Span>)
    requires |d| == |d'| && hdr + 12 <= |d| && hdr + 8 <= s.start && forall b :: 0 <= b < |d| && (b < s.start || s.End() <= b) ==> d'[b] == d[b]
    requires Within(blocks, hdr + 8, |d|) && Chained(d, hdr, blocks) && NoneMeets(cells + [s], blocks)
    ensures Chained(d', hdr, blocks)
  {
    hide Chained;
    forall k | 0 <= k < |blocks| ensures SameOn(d, d', blocks[k].start, blocks[k].start + 4) {
      assert Apart((cells + [s])[|cells|], blocks[k]);
    }
    ChainElsewhere(d, d', hdr, blocks);
  }

  lemma TrimmedCells(d0: seq<byte>, d: seq<byte>, d': seq<byte>, f: Format, hdr: nat, cells0: seq<Span>, cells: seq<Span>, s: Span)
    requires |d| == |d'| && CellOffset(f, hdr) + 2 * |cells| <= s.start && s.End() <= f.usable <= |d|
    requires forall b :: 0 <= b < |d| && (b < s.start || s.End() <= b) ==> d'[b] == d[b]
    requires AllApart(cells + [s]) && Pointed(d, CellOffset(f, hdr), cells) && SameCells(d0, d, f, hdr, cells0, cells)
    ensures Pointed(d', CellOffset(f, hdr), cells) && SameCells(d0, d', f, hdr, cells0, cells)
  {
    forall k | 0 <= k < |cells| ensures Content(d', cells[k]) == Content(d, cells[k]) {
      assert Apart((cells + [s])[k], (cells + [s])[|cells|]);
      assert (cells + [s])[k] == cells[k];
      SameSlice(d, d', cells[k].start, cells[k].End());
    }
    assert Contents(d', cells) == Contents(d, cells);
  }

  lemma LengthOfInsert(cells: seq<Span>, i: nat, s: Span)
    requires i <= |cells|
    ensures |Insert(cells, i, s)| == |cells| + 1
  {
  }

  lemma LaidTotal(d: seq<byte>, usable: nat, hdr: nat, lo: nat, used: seq<Span>, blocks: seq<Span>, lost: nat)
    requires Laid(d, usable, hdr, lo, used, blocks, lost)
    ensures hdr + 12 <= |d| && Total(used) + Total(blocks) + d[hdr + 7] + lost + Top(d, hdr) == usable
  {
  }

  lemma UsedBounds(d: seq<byte>, usable: nat, hdr: nat, lo: nat, cells: seq<Span>, s: Span, blocks: seq<Span>, lost: nat)
    requires Laid(d, usable, hdr, lo, cells + [s], blocks, lost)
    ensures AllApart(cells + [s]) && lo <= s.start && s.End() <= usable <= |d| && hdr + 12 <= usable && hdr + 8 <= lo && s.size >= 4
    ensures forall k :: 0 <= k < |cells| ==> lo <= cells[k].start && cells[k].End() <= usable
  {
    assert (cells + [s])[|cells|] == s;
    forall k | 0 <= k < |cells| ensures lo <= cells[k].start && cells[k].End() <= usable { assert (cells + [s])[k] == cells[k]; }
  }

  lemma InsertedCells(d: seq<byte>, f: Format, hdr: nat, cells: seq<Span>, i: nat, s: Span, c: seq<byte>)
    requires i <= |cells| && CellOffset(f, hdr) + 2 * |cells| + 2 <= s.start && s.End() <= |d| <= 0x1_0000 && |c| == s.size > 0
    requires AllApart(cells + [s]) && forall k :: 0 <= k < |cells| ==> CellOffset(f, hdr) + 2 * |cells| + 2 <= cells[k].start && cells[k].End() <= |d|
    requires Pointed(d, CellOffset(f, hdr), cells)
    ensures var d', cells' := InsertedBytes(d, f, hdr, cells, i, s, c), Insert(cells, i, s);
      && InPage(d, cells) && InPage(d', cells') && Contents(d', cells') == Put(Contents(d, cells), i, i, [c])
      && Pointed(d', CellOffset(f, hdr), cells') && Get2(d', hdr + 3) == |cells| + 1
  {
    hide InsertedBytes, Content, Get2, AllApart;
    var d', cells' := InsertedBytes(d, f, hdr, cells, i, s, c), Insert(cells, i, s);
    forall j | 0 <= j <= |cells|
      ensures cells'[j].End() <= |d| && Content(d', cells'[j]) == if j == i then c else Content(d, cells[if j < i then j else j - 1])
    {
      InsertedContents(d, f, hdr, cells, i, s, c, j);
    }
    forall j | 0 <= j <= |cells| ensures Get2(d', CellOffset(f, hdr) + 2 * j) == cells'[j].start {
      InsertedPointer(d, f, hdr, cells, i, s, c, j);
    }
    InsertedPointer(d, f, hdr, cells, i, s, c, 0);
  }

  lemma InsertedFrame(d0: seq<byte>, d: seq<byte>, f: Format, hdr: nat, cells: seq<Span>, i: nat, s: Span, c: seq<byte>)
    requires Frame(d0, d, f, hdr) && i <= |cells| && |c| == s.size && f.usable <= |d| && hdr + 12 <= |d|
    requires CellOffset(f, hdr) + 2 * |cells| + 2 <= s.start && s.End() <= f.usable
    ensures Frame(d0, InsertedBytes(d, f, hdr, cells, i, s, c), f, hdr)
  {
    hide InsertedBytes;
    InsertedSame(d, f, hdr, cells, i, s, c, 0, hdr + 1);
    InsertedSame(d, f, hdr, cells, i, s, c, hdr + 8, CellOffset(f, hdr));
    InsertedSame(d, f, hdr, cells, i, s, c, f.usable, |d|);
  }

  lemma PutAllCells(f: Format, cs: seq<seq<byte>>, i: nat, c: seq<byte>)
    requires f.Sane() && AllCells(f, cs) && i <= |cs| && IsCell(f, c)
    ensures AllCells(f, Put(cs, i, i, [c]))
  {
  }

  // ----- the page with a cell fewer -----

  function WithoutPointer(d: seq<byte>, off: nat, i: nat, n: nat, hdr: nat): (r: seq<byte>)
    requires i < n && off + 2 * n <= |d| && hdr + 5 <= off
    ensures |r| == |d|
  {
    Put2(Over(d, off + 2 * i, d[off + 2 * i + 2..off + 2 * n]), hdr + 3, n - 1)
  }

  lemma WithoutPointerReads(d: seq<byte>, off: nat, i: nat, n: nat, hdr: nat, j: nat)
    requires i < n && off + 2 * n <= |d| <= 0x1_0000 && hdr + 5 <= off && j < n - 1
    ensures Get2(WithoutPointer(d, off, i, n, hdr), off + 2 * j) == Get2(d, off + 2 * if j < i then j else j + 1)
  {
    OneOther(Over(d, off + 2 * i, d[off + 2 * i + 2..off + 2 * n]), hdr + 3, n - 1, off + 2 * j);
  }

  lemma WithoutPointerSame(d: seq<byte>, off: nat, i: nat, n: nat, hdr: nat, a: nat, b: nat)
    requires i < n && off + 2 * n <= |d| <= 0x1_0000 && hdr + 5 <= off && a <= b <= |d|
    requires b <= hdr + 3 || (hdr + 5 <= a && b <= off) || off + 2 * n <= a
    ensures var d' := WithoutPointer(d, off, i, n, hdr); SameOn(d, d', a, b) && d'[a..b] == d[a..b]
    ensures Get2(WithoutPointer(d, off, i, n, hdr), hdr + 3) == n - 1
  {
    OneRead(Over(d, off + 2 * i, d[off + 2 * i + 2..off + 2 * n]), hdr + 3, n - 1);
  }

  lemma DroppedLaid(d: seq<byte>, f: Format, hdr: nat, i: nat, n: nat, used: seq<Span>, blocks: seq<Span>, lost: nat)
    requires Laid(d, f.usable, hdr, CellOffset(f, hdr) + 2 * n, used, blocks, lost) && i < n && |d| <= 0x1_0000
    ensures CellOffset(f, hdr) + 2 * n <= |d|
    ensures Laid(WithoutPointer(d, CellOffset(f, hdr), i, n, hdr), f.usable, hdr, CellOffset(f, hdr) + 2 * n - 2, used, blocks, lost)
  {
    hide WithoutPointer, Chained, Area;
    LaidInside(d, f.usable, hdr, CellOffset(f, hdr) + 2 * n, used, blocks, lost);
    var off, d' := CellOffset(f, hdr), WithoutPointer(d, CellOffset(f, hdr), i, n, hdr);
    BlocksApart(f.usable, Top(d, hdr), d[hdr + 7] + lost, used, blocks);
    WithoutPointerSame(d, off, i, n, hdr, hdr + 1, hdr + 3);
    WithoutPointerSame(d, off, i, n, hdr, hdr + 5, hdr + 8);
    forall k | 0 <= k < |blocks| ensures SameOn(d, d', blocks[k].start, blocks[k].start + 4) {
      WithoutPointerSame(d, off, i, n, hdr, blocks[k].start, blocks[k].start + 4);
    }
    ChainElsewhere(d, d', hdr, blocks);
  }

  lemma DroppedCells(d: seq<byte>, f: Format, hdr: nat, i: nat, cells: seq<Span>)
    requires i < |cells| && |d| <= 0x1_0000 && Pointed(d, CellOffset(f, hdr), cells)
    requires forall k :: 0 <= k < |cells| ==> CellOffset(f, hdr) + 2 * |cells| <= cells[k].start && cells[k].End() <= |d|
    ensures InPage(d, cells)
    ensures var d', cells' := WithoutPointer(d, CellOffset(f, hdr), i, |cells|, hdr), Without(cells, i);
      && InPage(d', cells') && InPage(d, cells') && Contents(d', cells') == Contents(d, cells')
      && Pointed(d', CellOffset(f, hdr), cells') && Get2(d', hdr + 3) == |cells| - 1
  {
    hide WithoutPointer, Get2;
    var off, d', cells' := CellOffset(f, hdr), WithoutPointer(d, CellOffset(f, hdr), i, |cells|, hdr), Without(cells, i);
    WithoutPointerSame(d, off, i, |cells|, hdr, 0, 0);
    forall j | 0 <= j < |cells'| ensures Content(d', cells'[j]) == Content(d, cells'[j]) && Get2(d', off + 2 * j) == cells'[j].start {
      var k := if j < i then j else j + 1;
      assert cells'[j] == cells[k];
      WithoutPointerSame(d, off, i, |cells|, hdr, cells[k].start, cells[k].End());
      WithoutPointerReads(d, off, i, |cells|, hdr, j);
    }
  }

  lemma ContentsWithout(d: seq<byte>, cells: seq<Span>, i: nat)
    requires InPage(d, cells) && i < |cells|
    ensures InPage(d, Without(cells, i)) && Contents(d, Without(cells, i)) == Put(Contents(d, cells), i, i + 1, [])
  {
  }

  lemma Dropped(d0: seq<byte>, d: seq<byte>, f: Format, hdr: nat, nFree: nat, cells: seq<Span>, blocks0: seq<Span>, blocks: seq<Span>, i: nat, lost: nat)
    requires PageOk(d0, f, hdr, nFree, cells, blocks0, lost) && i < |cells|
    requires Step(d0, d, f.usable, hdr, CellOffset(f, hdr) + 2 * |cells|, Without(cells, i), blocks, lost) && Spaced(blocks, |blocks|)
    ensures CellOffset(f, hdr) + 2 * |cells| <= |d| && InPage(d0, cells)
    ensures var d', cells' := WithoutPointer(d, CellOffset(f, hdr), i, |cells|, hdr), Without(cells, i);
      && PageOk(d', f, hdr, nFree + cells[i].size + 2, cells', blocks, lost) && Frame(d0, d', f, hdr)
      && InPage(d', cells') && Contents(d', cells') == Put(Contents(d0, cells), i, i + 1, [])
  {
    hide WithoutPointer, Area, Chained, Total, Pointed, AllCells, Spaced, Contents, InPage, Frame, Put, Get2, IsCell, Kept, Laid, SameOn;
    var off, cells' := CellOffset(f, hdr), Without(cells, i);
    PageTotals(d0, f, hdr, nFree, cells, blocks0, lost);
    KeptLength(d0, d, f.usable, hdr, off + 2 * |cells|, cells');
    var d' := WithoutPointer(d, off, i, |cells|, hdr);
    DroppedLaid(d, f, hdr, i, |cells|, cells', blocks, lost);
    LaidTotal(d', f.usable, hdr, off + 2 * |cells| - 2, cells', blocks, lost);
    WithoutTotal(cells, i);
    CellBounds(d0, f, hdr, nFree, cells, blocks0, lost);
    KeptPointers(d0, d, f.usable, hdr, off, off + 2 * |cells|, cells', cells);
    DroppedCells(d, f, hdr, i, cells);
    KeptContents(d0, d, f.usable, hdr, off + 2 * |cells|, cells');
    ContentsWithout(d0, cells, i);
    KeptFrame(d0, d, f, hdr, off + 2 * |cells|, cells');
    DroppedFrame(d0, d, f, hdr, i, |cells|);
    PutFewerCells(f, Contents(d0, cells), i);
  }

  lemma KeptLength(d0: seq<byte>, d: seq<byte>, usable: nat, hdr: nat, lo: nat, used: seq<Span>)
    requires Kept(d0, d, usable, hdr, lo, used)
    ensures |d| == |d0|
  {
  }

  lemma WithoutTotal(cells: seq<Span>, i: nat)
    requires i < |cells|
    ensures Total(Without(cells, i)) + cells[i].size == Total(cells) && |Without(cells, i)| == |cells| - 1
  {
    TotalAround(cells[..i], cells[i], cells[i + 1..]);
    assert cells == cells[..i] + [cells[i]] + cells[i + 1..];
  }

  lemma CellBounds(d: seq<byte>, f: Format, hdr: nat, nFree: nat, cells: seq<Span>, blocks: seq<Span>, lost: nat)
    requires PageOk(d, f, hdr, nFree, cells, blocks, lost)
    ensures InPage(d, cells) && Pointed(d, CellOffset(f, hdr), cells) && AllCells(f, Contents(d, cells))
    ensures forall k :: 0 <= k < |cells| ==> CellOffset(f, hdr) + 2 * |cells| <= cells[k].start && cells[k].End() <= f.usable
  {
  }

  lemma DroppedFrame(d0: seq<byte>, d: seq<byte>, f: Format, hdr: nat, i: nat, n: nat)
    requires Frame(d0, d, f, hdr) && i < n && CellOffset(f, hdr) + 2 * n <= f.usable <= |d| <= 0x1_0000
    ensures Frame(d0, WithoutPointer(d, CellOffset(f, hdr), i, n, hdr), f, hdr)
  {
    hide WithoutPointer;
    WithoutPointerSame(d, CellOffset(f, hdr), i, n, hdr, 0, hdr + 1);
    WithoutPointerSame(d, CellOffset(f, hdr), i, n, hdr, hdr + 8, CellOffset(f, hdr));
    WithoutPointerSame(d, CellOffset(f, hdr), i, n, hdr, f.usable, |d|);
  }

  lemma PutFewerCells(f: Format, cs: seq<seq<byte>>, i: nat)
    requires f.Sane() && AllCells(f, cs) && i < |cs|
    ensures AllCells(f, Put(cs, i, i + 1, []))
  {
  }

  // ----- the page object -----

  /** Copies the cell to idx, with its child pointer replaced if iChild is not 0. */
  method WriteCell(data: array<byte>, idx: nat, pCell: seq<byte>, iChild: nat)
    requires idx + |pCell| <= data.Length && (iChild != 0 ==> |pCell| >= 4)
    modifies data
    ensures data[..] == Over(old(data[..]), idx, WithChild(pCell, iChild))
  {
    hide Over;
    if iChild != 0 {
      SpliceTwice(data[..], idx, Bytes4(iChild), pCell[4..]);
      CopyIn(data, idx + 4, pCell[4..]);
      CopyIn(data, idx, Bytes4(iChild));
    } else {
      CopyIn(data, idx, pCell);
    }
  }

  /** Puts a pointer to idx in place i. */
  method AddPointer(data: array<byte>, off: nat, i: nat, n: nat, hdr: nat, idx: nat)
    requires i <= n && off + 2 * n + 2 <= data.Length && hdr + 5 <= off
    modifies data
    ensures data[..] == WithPointer(old(data[..]), off, i, n, hdr, idx)
  {
    hide Over, Put2;
    ShiftUp(data, off, i, n);
    Put2Byte(data, off + 2 * i, idx);
    Put2Byte(data, hdr + 3, n + 1);
  }

  /** Takes out pointer i. */
  method RemovePointer(data: array<byte>, off: nat, i: nat, n: nat, hdr: nat)
    requires i < n && off + 2 * n <= data.Length && hdr + 5 <= off
    modifies data
    ensures data[..] == WithoutPointer(old(data[..]), off, i, n, hdr)
  {
    hide Over, Put2;
    ShiftDown(data, off, i, n);
    Put2Byte(data, hdr + 3, n - 1);
  }

  class MemPage {
    const aData: array<byte>
    const f: Format
    const hdr: nat
    var nCell: nat
    var nFree: nat
    var overflow: seq<(nat, seq<byte>)>
    ghost var cells: seq<Span>
    ghost var blocks: seq<Span>
    /** Bytes that no cell, free block or count of fragments accounts for.  The page is well-formed if there are none. */
    ghost var lost: nat

    constructor (data: array<byte>, format: Format, hdrOffset: nat)
      ensures aData == data && f == format && hdr == hdrOffset
      ensures nCell == nFree == 0 && overflow == [] && cells == blocks == [] && lost == 0
    {
      aData, f, hdr, nCell, nFree, overflow, cells, blocks, lost := data, format, hdrOffset, 0, 0, [], [], [], 0;
    }

    ghost predicate Valid()
      reads this, aData
    {
      PageOk(aData[..], f, hdr, nFree, cells, blocks, lost) && nCell == |cells| && InPage(aData[..], cells)
    }

    /** The cells on the page, in order. */
    ghost function OnPage(): seq<seq<byte>>
      reads this, aData
      requires Valid()
    {
      Contents(aData[..], cells)
    }

    /** Inserts a cell in place i, or puts it aside if it does not fit.  If iChild is not 0, it replaces the cell's child pointer.
        Bytes of pCell beyond the cell itself are lost.  It fails exactly if the page would have to be defragmented and has lost
        bytes before; then the page is in order again, but with more free bytes than nFree says. */
    method InsertCell(i: nat, pCell: seq<byte>, iChild: nat) returns (ok: bool)
      requires Valid() && (overflow == [] ==> i <= nCell) && (iChild != 0 ==> |pCell| >= 4)
      requires StartsCell(f, WithChild(pCell, iChild))
      modifies this`nCell, this`nFree, this`overflow, this`cells, this`blocks, this`lost, aData
      ensures hdr + 12 <= aData.Length && (ok ==> Valid()) && Frame(old(aData[..]), aData[..], f, hdr)
      ensures var c := WithChild(pCell, iChild);
        if old(overflow) != [] || |c| + 2 > old(nFree) then
          ok && OnPage() == old(OnPage()) && nFree == old(nFree) && lost == old(lost) && overflow == old(overflow) + [(i, c)]
        else
          && (ok <==> old(lost) == 0 || !Crowded(old(aData[..]), f, hdr, old(nCell), old(blocks), |c|))
          && (ok ==> OnPage() == Put(old(OnPage()), i, i, [FirstCell(f, c)]) && nFree + |c| + 2 == old(nFree) && overflow == []
                     && lost == old(lost) + |c| - |FirstCell(f, c)|)
      ensures !ok ==> PageOk(aData[..], f, hdr, old(nFree) + old(lost), cells, blocks, 0) && InPage(aData[..], cells)
                      && Contents(aData[..], cells) == old(OnPage()) && nCell == old(nCell) && nFree == old(nFree)
    {
      hide PageOk, Get2, Put2, Over, Contents, IsCell, InPage, Frame, Put, SetAside, InsertedBytes, Insert, WithPointer, CellSize, Crowded, SameCells;
      ghost var d0 := aData[..];
      ghost var c := WithChild(pCell, iChild);
      FrameSelf(d0, f, hdr, nFree, cells, blocks, lost);
      if overflow != [] || |pCell| + 2 > nFree {
        overflow := overflow + [(i, WithChild(pCell, iChild))];
        return true;
      }
      var idx;
      ghost var cells1, blocks1;
      ok, idx, cells1, blocks1 := AllocateSpace(aData, f, hdr, nCell, nFree, |pCell|, cells, blocks, lost);
      ghost var d1 := aData[..];
      if !ok {
        Healed(d0, d1, f, hdr, cells, cells1);
        cells, blocks, lost := cells1, blocks1, 0;
        return;
      }
      AsideLength(d0, d1, f, hdr, cells, cells1, Span(idx, |c|), blocks1, lost);
      ghost var n, t := |FirstCell(f, c)|, c[|FirstCell(f, c)|..];
      ghost var d2 := Over(d1, idx + n, t);
      Trimmed(d0, d1, f, hdr, cells, cells1, Span(idx, |c|), n, t, blocks1, lost);
      AsideLength(d0, d2, f, hdr, cells, cells1, Span(idx, n), blocks1, lost + |t|);
      Inserted(d0, d2, f, hdr, nFree, cells, blocks, cells1, Span(idx, n), blocks1, i, FirstCell(f, c), lost, lost + |t|);
      InsertedIs(d1, f, hdr, cells1, i, idx, c, n);
      WriteCell(aData, idx, pCell, iChild);
      AddPointer(aData, CellOffset(f, hdr), i, nCell, hdr, idx);
      nCell, nFree := nCell + 1, nFree - (2 + |pCell|);
      cells, blocks, lost := Insert(cells1, i, Span(idx, n)), blocks1, lost + |t|;
      LengthOfInsert(cells1, i, Span(idx, n));
    }

    /** Removes cell i.  It fails exactly if the cell's neighbours in the list of free blocks are too close for the count of fragments;
        then the bytes are free already, and the cell is still pointed to. */
    method DropCell(i: nat, sz: nat) returns (ok: bool, ghost k: nat)
      requires Valid() && i < nCell && sz == |OnPage()[i]|
      modifies this`nCell, this`nFree, this`cells, this`blocks, aData
      ensures hdr + 12 <= aData.Length && (ok ==> Valid()) && Frame(old(aData[..]), aData[..], f, hdr)
      ensures k <= |old(blocks)| && forall j :: 0 <= j < |old(blocks)| ==> (old(blocks)[j].start < old(cells)[i].start <==> j < k)
      ensures ok <==> Beside(old(blocks), k, old(cells)[i]) <= old(FragCount(aData[..], hdr))
      ensures lost == 0 ==> ok
      ensures ok ==> OnPage() == Put(old(OnPage()), i, i + 1, []) && nFree == old(nFree) + sz + 2
    {
      hide PageOk, Get2, Put2, Over, Contents, IsCell, InPage, Frame, Put, Laid, Spaced, CellSize, Step, Without, Content, WithoutPointer, Total, Insert;
      ghost var d0 := aData[..];
      CellOnPage(d0, f, hdr, nFree, cells, blocks, i, lost);
      PageTotals(d0, f, hdr, nFree, cells, blocks, lost);
      CellInLaid(d0, f, hdr, nFree, cells, blocks, i, lost);
      var off := CellOffset(f, hdr);
      var pc := Get2Byte(aData, off + 2 * i);
      var top := Get2Byte(aData, hdr + 5);
      ok, k := false, 0;
      if pc < top || pc + sz > f.usable { return; }
      ghost var blocks1;
      ok, blocks1, k := FreeSpace(aData, f.usable, hdr, pc, sz, off + 2 * nCell, cells[..i], cells[i + 1..], blocks, lost);
      SpacedBlocks(d0, f, hdr, nFree, cells, blocks, lost);
      GapsBeside(blocks, k, cells[i]);
      WithoutIs(cells, i);
      if !ok {
        StepFrame(d0, aData[..], f, hdr, off + 2 * nCell, Without(cells, i), blocks1, lost);
        return;
      }
      Dropped(d0, aData[..], f, hdr, nFree, cells, blocks, blocks1, i, lost);
      RemovePointer(aData, off, i, nCell, hdr);
      nCell, nFree := nCell - 1, nFree + sz + 2;
      WithoutTotal(cells, i);
      cells, blocks := Without(cells, i), blocks1;
    }
  }

  /** The cell with its child pointer replaced if iChild is not 0. */
  function WithChild(pCell: seq<byte>, iChild: nat): (c: seq<byte>)
    requires iChild != 0 ==> |pCell| >= 4
    ensures |c| == |pCell|
  {
    if iChild != 0 then Bytes4(iChild) + pCell[4..] else pCell
  }

  lemma Healed(d0: seq<byte>, d: seq<byte>, f: Format, hdr: nat, cells0: seq<Span>, cells: seq<Span>)
    requires SameCells(d0, d, f, hdr, cells0, cells)
    ensures Frame(d0, d, f, hdr) && |cells| == |cells0| && InPage(d0, cells0) && InPage(d, cells) && Contents(d, cells) == Contents(d0, cells0)
  {
  }

  lemma SpacedBlocks(d: seq<byte>, f: Format, hdr: nat, nFree: nat, cells: seq<Span>, blocks: seq<Span>, lost: nat)
    requires PageOk(d, f, hdr, nFree, cells, blocks, lost)
    ensures Spaced(blocks, |blocks|)
  {
  }

  lemma StepFrame(d0: seq<byte>, d: seq<byte>, f: Format, hdr: nat, lo: nat, used: seq<Span>, blocks: seq<Span>, lost: nat)
    requires Step(d0, d, f.usable, hdr, lo, used, blocks, lost) && CellOffset(f, hdr) <= lo
    ensures Frame(d0, d, f, hdr)
  {
    KeptFrame(d0, d, f, hdr, lo, used);
  }

  /** Writing all the bytes given is writing the lost ones and then the cell. */
  lemma InsertedIs(d: seq<byte>, f: Format, hdr: nat, cells: seq<Span>, i: nat, idx: nat, c: seq<byte>, n: nat)
    requires i <= |cells| && CellOffset(f, hdr) + 2 * |cells| + 2 <= |d| && idx + |c| <= |d| && n <= |c|
    ensures InsertedBytes(Over(d, idx + n, c[n..]), f, hdr, cells, i, Span(idx, n), c[..n])
            == WithPointer(Over(d, idx, c), CellOffset(f, hdr), i, |cells|, hdr, idx)
  {
    hide WithPointer;
    assert Over(Over(d, idx + n, c[n..]), idx, c[..n]) == Over(d, idx, c);
  }

  lemma WithoutIs(cells: seq<Span>, i: nat)
    requires i < |cells|
    ensures Without(cells, i) == cells[..i] + cells[i + 1..]
  {
  }

  lemma FrameSelf(d: seq<byte>, f: Format, hdr: nat, nFree: nat, cells: seq<Span>, blocks: seq<Span>, lost: nat)
    requires PageOk(d, f, hdr, nFree, cells, blocks, lost)
    ensures f.Sane() && Frame(d, d, f, hdr) && hdr + 12 <= |d|
  {
    PageTotals(d, f, hdr, nFree, cells, blocks, lost);
  }

  lemma CellLong(f: Format, c: seq<byte>)
    requires f.Sane() && IsCell(f, c)
    ensures |c| >= 4
  {
  }

  lemma AsideLength(d0: seq<byte>, d: seq<byte>, f: Format, hdr: nat, cells0: seq<Span>, cells: seq<Span>, s: Span, blocks: seq<Span>, lost: nat)
    requires SetAside(d0, d, f, hdr, cells0, cells, s, blocks, lost)
    ensures |cells| == |cells0| && s.End() <= |d| && CellOffset(f, hdr) + 2 * |cells| + 2 <= s.start && hdr + 12 <= |d| == |d0|
  {
    UsedBounds(d, f.usable, hdr, CellOffset(f, hdr) + 2 * |cells| + 2, cells, s, blocks, lost);
  }

  lemma SpliceTwice(d: seq<byte>, a: nat, s: seq<byte>, t: seq<byte>)
    requires a + |s| + |t| <= |d|
    ensures Over(Over(d, a + |s|, t), a, s) == Over(d, a, s + t)
  {
  }

  lemma CellInLaid(d: seq<byte>, f: Format, hdr: nat, nFree: nat, cells: seq<Span>, blocks: seq<Span>, i: nat, lost: nat)
    requires PageOk(d, f, hdr, nFree, cells, blocks, lost) && i < |cells|
    ensures var c := cells[i];
      && cells == cells[..i] + [Span(c.start, c.size)] + cells[i + 1..]
      && Laid(d, f.usable, hdr, CellOffset(f, hdr) + 2 * |cells|, cells[..i] + [Span(c.start, c.size)] + cells[i + 1..], blocks, lost)
      && InPage(d, cells) && |Contents(d, cells)[i]| == c.size && Get2(d, hdr + 5) <= c.start
  {
    hide Area, Chained, Total, Pointed, AllCells, Get2, Contents, Content, NoneMeets;
    assert cells == cells[..i] + [Span(cells[i].start, cells[i].size)] + cells[i + 1..];
    CellOnPage(d, f, hdr, nFree, cells, blocks, i, lost);
    ContentSize(d, cells[i]);
    ContentsAt(d, cells, i);
  }

  lemma ContentsAt(d: seq<byte>, cells: seq<Span>, i: nat)
    requires InPage(d, cells) && i < |cells|
    ensures Contents(d, cells)[i] == Content(d, cells[i])
  {
  }

  // ----- an empty page -----

  /** Makes a page that holds no cells. */
  method ZeroPage(data: array<byte>, f: Format, hdr: nat, flags: byte)
    requires f.Sane() && hdr + 12 <= f.usable <= data.Length <= 0x1_0000
    modifies data
    ensures PageOk(data[..], f, hdr, f.usable - CellOffset(f, hdr), [], [], 0) && data[hdr] == flags
  {
    data[hdr] := flags;
    data[hdr + 1], data[hdr + 2], data[hdr + 3], data[hdr + 4] := 0, 0, 0, 0;
    data[hdr + 7] := 0;
    Put2Byte(data, hdr + 5, f.usable);
    EmptyPage(data[..], f, hdr);
  }

  lemma EmptyPage(d: seq<byte>, f: Format, hdr: nat)
    requires f.Sane() && hdr + 12 <= f.usable <= |d| <= 0x1_0000
    requires Get2(d, hdr + 1) == 0 && Get2(d, hdr + 3) == 0 && d[hdr + 7] == 0 && Get2(d, hdr + 5) == f.usable % 0x1_0000
    ensures PageOk(d, f, hdr, f.usable - CellOffset(f, hdr), [], [], 0)
  {
    NoChain(d, hdr);
    NoBlocks();
    assert Area(f.usable, f.usable, 0, [], []);
  }

  // ----- reading a page back -----

  /** The free blocks of a page can be followed from the header: they lie behind the cell pointers and inside the page, in ascending order
      and at least 4 bytes apart, and with the fragments there are not more free bytes than there is room for. */
  ghost predicate Readable(d: seq<byte>, f: Format, hdr: nat, w: seq<Span>)
    requires hdr + 12 <= f.usable <= |d|
  {
    && Get2(d, hdr + 3) <= (|d| - 8) / 6
    && ReadSoFar(d, f, hdr, w, 0)
    && d[hdr + 7] + Top(d, hdr) + Total(w) <= f.usable
  }

  /** The first blocks of the chain, after which comes the block at pc, or nothing if that is 0. */
  ghost predicate ReadSoFar(d: seq<byte>, f: Format, hdr: nat, w: seq<Span>, pc: nat)
    requires hdr + 12 <= f.usable <= |d|
  {
    && (forall i :: 0 <= i < |w| ==> BlockRead(d, f, hdr, w, i))
    && LastEnd(w) + (if w == [] then 0 else 2) <= |d|
    && Get2(d, Link(hdr, w, |w|)) == pc && (pc > 0 && w != [] ==> w[|w| - 1].End() + 4 <= pc)
  }

  function LastEnd(w: seq<Span>): nat { if w == [] then 0 else w[|w| - 1].start }

  ghost predicate BlockRead(d: seq<byte>, f: Format, hdr: nat, w: seq<Span>, i: nat)
    requires hdr + 12 <= f.usable <= |d| && i < |w|
  {
    && CellOffset(f, hdr) + 2 * Get2(d, hdr + 3) <= w[i].start <= f.usable - 4 && w[i].End() <= f.usable && Get2(d, w[i].start + 2) == w[i].size
    && Link(hdr, w, i) + 2 <= |d| && Get2(d, Link(hdr, w, i)) == w[i].start
    && (i > 0 ==> w[i - 1].End() + 4 <= w[i].start)
  }

  /** The checks and the count of free bytes made when a page is read: exactly the pages whose free blocks can be followed are accepted. */
  method InitPage(data: array<byte>, f: Format, hdr: nat) returns (ok: bool, nCell: nat, nFree: nat, ghost chain: seq<Span>)
    requires hdr + 12 <= f.usable <= data.Length
    ensures ok <==> exists w: seq<Span> :: Readable(data[..], f, hdr, w)
    ensures ok ==> Readable(data[..], f, hdr, chain) && nCell == Get2(data[..], hdr + 3)
                   && nFree == (data[hdr + 7] + Top(data[..], hdr) + Total(chain) - CellOffset(f, hdr) - 2 * nCell) % 0x1_0000
  {
    hide Get2, Total, Link, BlockRead, ReadSoFar;
    ghost var d := data[..];
    ghost var good, w := exists w: seq<Span> :: Readable(d, f, hdr, w), [];
    if good { w :| Readable(d, f, hdr, w); }
    chain := [];
    nFree := 0;
    var top := Get2Byte(data, hdr + 5);
    top := NotZero(top);
    nCell := Get2Byte(data, hdr + 3);
    if nCell > (data.Length - 8) / 6 { return false, nCell, 0, chain; }
    var iCellFirst := CellOffset(f, hdr) + 2 * nCell;
    var pc: nat := Get2Byte(data, hdr + 1);
    var free: nat := data[hdr + 7] + top;
    NothingRead(d, f, hdr, pc);
    while pc > 0
      invariant ReadSoFar(d, f, hdr, chain, pc) && free == Top(d, hdr) + data[hdr + 7] + Total(chain)
      invariant good ==> |chain| <= |w| && chain == w[..|chain|]
      decreases pc > 0, f.usable - pc
    {
      if good { NextRead(d, f, hdr, chain, w, pc); }
      if pc < iCellFirst || pc > f.usable - 4 { return false, nCell, 0, chain; }
      var next := Get2Byte(data, pc);
      var size := Get2Byte(data, pc + 2);
      if (next > 0 && next <= pc + size + 3) || pc + size > f.usable { return false, nCell, 0, chain; }
      free := free + size;
      MoreRead(d, f, hdr, chain, pc, next, size);
      pc, chain := next, chain + [Span(pc, size)];
    }
    if good { AllRead(d, f, hdr, chain, w); }
    if free > f.usable { return false, nCell, 0, chain; }
    assert Readable(data[..], f, hdr, chain) by { EndRead(d, f, hdr, chain); }
    return true, nCell, (free - iCellFirst) % 0x1_0000, chain;
  }

  lemma EndRead(d: seq<byte>, f: Format, hdr: nat, chain: seq<Span>)
    requires hdr + 12 <= f.usable <= |d| && Get2(d, hdr + 3) <= (|d| - 8) / 6 && ReadSoFar(d, f, hdr, chain, 0)
    requires d[hdr + 7] + Top(d, hdr) + Total(chain) <= f.usable
    ensures Readable(d, f, hdr, chain)
  {
  }

  lemma NothingRead(d: seq<byte>, f: Format, hdr: nat, pc: nat)
    requires hdr + 12 <= f.usable <= |d| && pc == Get2(d, hdr + 1)
    ensures ReadSoFar(d, f, hdr, [], pc) && Total([]) == 0
  {
  }

  /** The next block of a chain that can be followed. */
  lemma NextRead(d: seq<byte>, f: Format, hdr: nat, chain: seq<Span>, w: seq<Span>, pc: nat)
    requires hdr + 12 <= f.usable <= |d| && Readable(d, f, hdr, w) && ReadSoFar(d, f, hdr, chain, pc) && pc > 0
    requires |chain| <= |w| && chain == w[..|chain|]
    ensures |chain| < |w| && w[|chain|].start == pc && chain + [w[|chain|]] == w[..|chain| + 1]
    ensures CellOffset(f, hdr) + 2 * Get2(d, hdr + 3) <= pc <= f.usable - 4 && Get2(d, pc + 2) == w[|chain|].size && w[|chain|].End() <= f.usable
    ensures Get2(d, pc) > 0 ==> pc + w[|chain|].size + 3 < Get2(d, pc)
  {
    var k := |chain|;
    assert Link(hdr, chain, k) == Link(hdr, w, k);
    if k == |w| { assert false; }
    assert BlockRead(d, f, hdr, w, k);
    if k + 1 < |w| { assert BlockRead(d, f, hdr, w, k + 1); }
  }

  lemma MoreRead(d: seq<byte>, f: Format, hdr: nat, chain: seq<Span>, pc: nat, next: nat, size: nat)
    requires hdr + 12 <= f.usable <= |d| && ReadSoFar(d, f, hdr, chain, pc)
    requires CellOffset(f, hdr) + 2 * Get2(d, hdr + 3) <= pc <= f.usable - 4 && pc + size <= f.usable && size == Get2(d, pc + 2) && next == Get2(d, pc)
    requires pc > 0 && (next > 0 ==> pc + size + 3 < next)
    ensures ReadSoFar(d, f, hdr, chain + [Span(pc, size)], next) && Total(chain + [Span(pc, size)]) == Total(chain) + size
  {
    var c := chain + [Span(pc, size)];
    assert c[..|chain|] == chain;
    forall i | 0 <= i < |c| ensures BlockRead(d, f, hdr, c, i) {
      assert Link(hdr, c, i) == Link(hdr, chain, i);
      if i < |chain| { assert BlockRead(d, f, hdr, chain, i); }
    }
  }

  /** The links and sizes of the chain, each as the bytes have it. */
  ghost predicate Linked(d: seq<byte>, hdr: nat, w: seq<Span>) {
    && (forall i :: 0 <= i <= |w| ==> Link(hdr, w, i) + 2 <= |d| && Get2(d, Link(hdr, w, i)) == LinkTarget(w, i))
    && (forall i :: 0 <= i < |w| ==> 0 < w[i].start && w[i].start + 4 <= |d| && Get2(d, w[i].start + 2) == w[i].size)
  }

  lemma ReadLinked(d: seq<byte>, f: Format, hdr: nat, w: seq<Span>)
    requires hdr + 12 <= f.usable <= |d| && ReadSoFar(d, f, hdr, w, 0)
    ensures Linked(d, hdr, w)
  {
    hide Get2;
    forall i | 0 <= i < |w|
      ensures Link(hdr, w, i) + 2 <= |d| && Get2(d, Link(hdr, w, i)) == w[i].start > 0 && w[i].start + 4 <= |d| && Get2(d, w[i].start + 2) == w[i].size
    {
      assert BlockRead(d, f, hdr, w, i);
    }
  }

  /** Only one chain can be followed. */
  lemma NextSame(d: seq<byte>, hdr: nat, a: seq<Span>, b: seq<Span>, k: nat)
    requires Linked(d, hdr, a) && Linked(d, hdr, b) && k <= |a| && k <= |b| && a[..k] == b[..k]
    ensures k < |a| <==> k < |b|
    ensures k < |a| ==> a[..k + 1] == b[..k + 1]
  {
    hide Get2;
    assert Link(hdr, a, k) == Link(hdr, b, k) by { if k > 0 { assert a[..k][k - 1] == b[..k][k - 1]; } }
    assert LinkTarget(a, k) == LinkTarget(b, k);
    if k < |a| {
      assert a[k] == b[k];
      assert a[..k + 1] == a[..k] + [a[k]] && b[..k + 1] == b[..k] + [b[k]];
    }
  }

  lemma {:induction false} LinkedOnce(d: seq<byte>, hdr: nat, a: seq<Span>, b: seq<Span>, k: nat)
    requires Linked(d, hdr, a) && Linked(d, hdr, b) && k <= |a| && k <= |b| && a[..k] == b[..k]
    ensures a == b
    decreases |a| - k
  {
    hide Linked;
    NextSame(d, hdr, a, b, k);
    if k < |a| { LinkedOnce(d, hdr, a, b, k + 1); } else { assert a[..k] == a && b[..k] == b; }
  }

  lemma AllRead(d: seq<byte>, f: Format, hdr: nat, chain: seq<Span>, w: seq<Span>)
    requires hdr + 12 <= f.usable <= |d| && Readable(d, f, hdr, w) && ReadSoFar(d, f, hdr, chain, 0)
    requires |chain| <= |w| && chain == w[..|chain|]
    ensures w == chain
  {
    hide Get2, BlockRead;
    ReadLinked(d, f, hdr, w);
    ReadLinked(d, f, hdr, chain);
    assert chain[..|chain|] == chain;
    LinkedOnce(d, hdr, chain, w, |chain|);
  }

  /** Every well-formed page is accepted, with the nFree that it has, whatever bytes it may have lost. */
  lemma PageReadable(d: seq<byte>, f: Format, hdr: nat, n: nat, cells: seq<Span>, blocks: seq<Span>, lost: nat)
    requires hdr + 12 <= f.usable <= |d| && PageOk(d, f, hdr, n, cells, blocks, lost)
    ensures Readable(d, f, hdr, blocks) && Get2(d, hdr + 3) == |cells|
    ensures (d[hdr + 7] + Top(d, hdr) + Total(blocks) - CellOffset(f, hdr) - 2 * |cells|) % 0x1_0000 == n
    ensures forall w: seq<Span> :: Readable(d, f, hdr, w) ==> w == blocks
  {
    hide PageOk, Get2, Link, Total, ReadSoFar, BlockRead;
    BlocksRead(d, f, hdr, n, cells, blocks, lost);
    InitHeader(d, f, hdr, n, cells, blocks, lost);
    PageTotals(d, f, hdr, n, cells, blocks, lost);
    InitLink(d, f, hdr, n, cells, blocks, |blocks|, lost);
    InitEnd(d, f, hdr, n, cells, blocks, |blocks|, lost);
    assert blocks[..|blocks|] == blocks;
    forall w: seq<Span> | Readable(d, f, hdr, w) ensures w == blocks {
      ReadLinked(d, f, hdr, w);
      ReadLinked(d, f, hdr, blocks);
      LinkedOnce(d, hdr, w, blocks, 0);
    }
  }

  lemma BlocksRead(d: seq<byte>, f: Format, hdr: nat, n: nat, cells: seq<Span>, blocks: seq<Span>, lost: nat)
    requires hdr + 12 <= f.usable <= |d| && PageOk(d, f, hdr, n, cells, blocks, lost)
    ensures ReadSoFar(d, f, hdr, blocks, 0)
  {
    hide PageOk, Get2;
    forall k | 0 <= k < |blocks| ensures BlockRead(d, f, hdr, blocks, k) {
      InitBlock(d, f, hdr, n, cells, blocks, k, lost);
      InitLink(d, f, hdr, n, cells, blocks, k, lost);
      if k > 0 { InitBlock(d, f, hdr, n, cells, blocks, k - 1, lost); }
    }
    InitLink(d, f, hdr, n, cells, blocks, |blocks|, lost);
  }

  lemma InitLink(d: seq<byte>, f: Format, hdr: nat, n: nat, cells: seq<Span>, blocks: seq<Span>, k: nat, lost: nat)
    requires PageOk(d, f, hdr, n, cells, blocks, lost) && k <= |blocks|
    ensures Link(hdr, blocks, k) + 4 <= |d| && Get2(d, Link(hdr, blocks, k)) == LinkTarget(blocks, k)
  {
    hide PageOk;
    NextLinkOk(d, f, hdr, n, cells, blocks, k, lost);
  }

  lemma {:induction false} TotalAtLeast(s: seq<Span>)
    requires forall i :: 0 <= i < |s| ==> s[i].size >= 4
    ensures Total(s) >= 4 * |s|
  {
    if s != [] { TotalAtLeast(s[..|s| - 1]); }
  }

  lemma InitHeader(d: seq<byte>, f: Format, hdr: nat, n: nat, cells: seq<Span>, blocks: seq<Span>, lost: nat)
    requires PageOk(d, f, hdr, n, cells, blocks, lost)
    ensures hdr + 12 <= |d| && Get2(d, hdr + 3) == |cells| <= (|d| - 8) / 6
    ensures Get2(d, hdr + 1) == LinkTarget(blocks, 0) && Total(blocks[..0]) == 0
  {
    PageTotals(d, f, hdr, n, cells, blocks, lost);
    TotalAtLeast(cells);
    NextLinkOk(d, f, hdr, n, cells, blocks, 0, lost);
  }

  lemma InitBlock(d: seq<byte>, f: Format, hdr: nat, n: nat, cells: seq<Span>, blocks: seq<Span>, k: nat, lost: nat)
    requires PageOk(d, f, hdr, n, cells, blocks, lost) && k < |blocks|
    ensures var b := blocks[k];
      && Get2(d, hdr + 3) == |cells| && LinkTarget(blocks, k) == b.start && CellOffset(f, hdr) + 2 * |cells| <= b.start <= f.usable - 4
      && b.End() <= f.usable <= |d| && Get2(d, b.start) == LinkTarget(blocks, k + 1) && Get2(d, b.start + 2) == b.size
      && Total(blocks[..k + 1]) == Total(blocks[..k]) + b.size
      && (k + 1 < |blocks| ==> b.End() + 4 <= blocks[k + 1].start)
  {
    NextLinkOk(d, f, hdr, n, cells, blocks, k, lost);
    NextLinkOk(d, f, hdr, n, cells, blocks, k + 1, lost);
    hide Chained, Pointed, InPage, AllCells, Contents, AllApart, NoneMeets, Ascending;
    assert blocks[..k + 1][..k] == blocks[..k];
  }

  lemma InitEnd(d: seq<byte>, f: Format, hdr: nat, n: nat, cells: seq<Span>, blocks: seq<Span>, k: nat, lost: nat)
    requires PageOk(d, f, hdr, n, cells, blocks, lost) && k <= |blocks| && LinkTarget(blocks, k) == 0
    ensures hdr + 12 <= |d| && Get2(d, hdr + 3) == |cells|
    ensures Top(d, hdr) + d[hdr + 7] + Total(blocks[..k]) == n + CellOffset(f, hdr) + 2 * |cells| <= f.usable
  {
    PageTotals(d, f, hdr, n, cells, blocks, lost);
    if k < |blocks| { NextLinkOk(d, f, hdr, n, cells, blocks, k, lost); }
    hide Chained, Pointed, InPage, AllCells, Contents, Area;
    assert blocks[..|blocks|] == blocks;
  }
}
