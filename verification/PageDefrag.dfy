/** Defragmenting a page: all cells move to its end. */
module PageDefrag {
  import opened Bytes
  import opened CellFormat
  import opened PageSpace
  import opened PageBytes
  import opened SlottedPage

  ghost predicate AllCells(f: Format, cs: seq<seq<byte>>)
    requires f.Sane()
  {
    forall i :: 0 <= i < |cs| ==> IsCell(f, cs[i])
  }

  /** A page with the cells and free blocks at these places; nFree counts the bytes that could still be allocated.  It is well-formed if
      no bytes are lost. */
  ghost predicate PageOk(d: seq<byte>, f: Format, hdr: nat, nFree: nat, cells: seq<Span>, blocks: seq<Span>, lost: nat) {
    && f.Sane() && |d| <= 0x1_0000
    && Laid(d, f.usable, hdr, CellOffset(f, hdr) + 2 * |cells|, cells, blocks, lost) && Spaced(blocks, |blocks|)
    && Get2(d, hdr + 3) == |cells| && Pointed(d, CellOffset(f, hdr), cells)
    && InPage(d, cells) && AllCells(f, Contents(d, cells))
    && nFree + CellOffset(f, hdr) + 2 * |cells| == Top(d, hdr) + d[hdr + 7] + Total(blocks)
  }

  /** The flags byte and what precedes it, the right child pointer, and what follows the usable part. */
  ghost predicate Frame(d: seq<byte>, d': seq<byte>, f: Format, hdr: nat) {
    SameOn(d, d', 0, hdr + 1) && SameOn(d, d', hdr + 8, CellOffset(f, hdr)) && SameOn(d, d', f.usable, |d|)
  }

  // ----- writing a run of bytes -----

  method CopyIn(data: array<byte>, a: nat, s: seq<byte>)
    requires a + |s| <= data.Length
    modifies data
    ensures data[..] == Over(old(data[..]), a, s)
  {
    var i := 0;
    while i < |s|
      invariant i <= |s|
      invariant data[..] == Over(old(data[..]), a, s[..i])
    {
      data[a + i] := s[i];
      i := i + 1;
    }
    assert s[..i] == s;
  }

  // ----- cells packed against the end of the page -----

  function Packed(cells: seq<Span>, usable: nat): (r: seq<Span>)
    requires Total(cells) <= usable
    ensures |r| == |cells|
  {
    if cells == [] then []
    else Packed(cells[..|cells| - 1], usable) + [Span(usable - Total(cells), cells[|cells| - 1].size)]
  }

  lemma {:induction false} TotalPrefix(cells: seq<Span>, i: nat)
    requires i < |cells|
    ensures Total(cells[..i + 1]) == Total(cells[..i]) + cells[i].size <= Total(cells)
    decreases |cells|
  {
    assert cells[..i + 1][..i] == cells[..i];
    if i + 1 < |cells| {
      TotalPrefix(cells[..|cells| - 1], i);
      assert cells[..|cells| - 1][..i + 1] == cells[..i + 1] && cells[..|cells| - 1][..i] == cells[..i];
    } else {
      assert cells[..i + 1] == cells;
    }
  }

  lemma {:induction false} PackedAt(cells: seq<Span>, usable: nat, i: nat)
    requires Total(cells) <= usable && i < |cells|
    ensures Total(cells[..i + 1]) <= usable && Packed(cells, usable)[i] == Span(usable - Total(cells[..i + 1]), cells[i].size)
    decreases |cells|
  {
    TotalPrefix(cells, i);
    if i + 1 < |cells| {
      PackedAt(cells[..|cells| - 1], usable, i);
      assert cells[..|cells| - 1][..i + 1] == cells[..i + 1];
    } else {
      assert cells[..i + 1] == cells;
    }
  }

  lemma PackedArea(cells: seq<Span>, usable: nat, lo: nat)
    requires Total(cells) + lo <= usable && forall i :: 0 <= i < |cells| ==> cells[i].size >= 4
    ensures AllApart(Packed(cells, usable)) && Within(Packed(cells, usable), usable - Total(cells), usable)
    ensures Total(Packed(cells, usable)) == Total(cells)
  {
    hide Packed, Total;
    var p := Packed(cells, usable);
    forall i | 0 <= i < |p| ensures usable - Total(cells) <= p[i].start && p[i].End() <= usable && p[i].size == cells[i].size {
      PackedAt(cells, usable, i);
      TotalPrefix(cells, i);
    }
    forall i, j | 0 <= i < j < |p| ensures p[j].End() <= p[i].start {
      PackedAt(cells, usable, i);
      PackedAt(cells, usable, j);
      TotalPrefix(cells, j);
      TotalMore(cells, i, j);
    }
    SameTotal(p, cells);
  }

  ghost predicate PointersMoved(d: seq<byte>, off: nat, ps: seq<Span>, cells: seq<Span>, i: nat) {
    && off + 2 * |cells| <= |d| && |ps| == |cells|
    && forall k :: 0 <= k < |cells| ==> Get2(d, off + 2 * k) == if k < i then ps[k].start else cells[k].start
  }

  ghost predicate ContentsMoved(d0: seq<byte>, d: seq<byte>, ps: seq<Span>, cells: seq<Span>, i: nat) {
    && i <= |cells| == |ps|
    && forall k :: 0 <= k < i ==> ps[k].End() <= |d| && cells[k].End() <= |d0| && Content(d, ps[k]) == Content(d0, cells[k])
  }

  /** The first i cells have moved. */
  ghost predicate Moved(d0: seq<byte>, d: seq<byte>, f: Format, hdr: nat, cells: seq<Span>, i: nat) {
    && |d| == |d0| && f.usable <= |d| <= 0x1_0000 && i <= |cells| && Total(cells) + CellOffset(f, hdr) + 2 * |cells| <= f.usable && InPage(d0, cells)
    && SameOn(d0, d, 0, CellOffset(f, hdr)) && SameOn(d0, d, f.usable, |d0|)
    && PointersMoved(d, CellOffset(f, hdr), Packed(cells, f.usable), cells, i)
    && ContentsMoved(d0, d, Packed(cells, f.usable), cells, i)
  }

  function MoveOne(d: seq<byte>, a: nat, c: seq<byte>, p: nat): (r: seq<byte>)
    requires a + |c| <= |d| && p + 2 <= a
    ensures |r| == |d|
  {
    Put2(Over(d, a, c), p, a)
  }

  lemma MoveOneReads(d: seq<byte>, a: nat, c: seq<byte>, p: nat)
    requires a + |c| <= |d| <= 0x1_0000 && p + 2 <= a && |c| > 0
    ensures var d' := MoveOne(d, a, c, p); Get2(d', p) == a && d'[a..a + |c|] == c
  {
    OneRead(Over(d, a, c), p, a);
    SameSlice(Over(d, a, c), MoveOne(d, a, c, p), a, a + |c|);
  }

  lemma MoveOneSame(d: seq<byte>, a: nat, c: seq<byte>, p: nat, lo: nat, hi: nat)
    requires a + |c| <= |d| && p + 2 <= a && lo <= hi <= |d|
    requires hi <= p || (p + 2 <= lo && hi <= a) || a + |c| <= lo
    ensures SameOn(d, MoveOne(d, a, c, p), lo, hi) && MoveOne(d, a, c, p)[lo..hi] == d[lo..hi]
  {
  }

  lemma SameOnTrans(a: seq<byte>, b: seq<byte>, c: seq<byte>, lo: nat, hi: nat)
    requires SameOn(a, b, lo, hi) && SameOn(b, c, lo, hi)
    ensures SameOn(a, c, lo, hi)
  {
  }

  lemma MoveOneFrame(d0: seq<byte>, d: seq<byte>, a: nat, c: seq<byte>, p: nat, lo: nat, hi: nat)
    requires a + |c| <= |d| == |d0| && p + 2 <= a && lo <= hi <= |d|
    requires hi <= p || (p + 2 <= lo && hi <= a) || a + |c| <= lo
    requires SameOn(d0, d, lo, hi)
    ensures SameOn(d0, MoveOne(d, a, c, p), lo, hi)
  {
    MoveOneSame(d, a, c, p, lo, hi);
    SameOnTrans(d0, d, MoveOne(d, a, c, p), lo, hi);
  }

  lemma MoveStep(d0: seq<byte>, d: seq<byte>, f: Format, hdr: nat, cells: seq<Span>, i: nat)
    requires Moved(d0, d, f, hdr, cells, i) && i < |cells| && forall k :: 0 <= k < |cells| ==> cells[k].size >= 4
    ensures var p := Packed(cells, f.usable)[i];
      && CellOffset(f, hdr) + 2 * |cells| <= p.start && p.start + cells[i].size <= f.usable
      && Moved(d0, MoveOne(d, p.start, Content(d0, cells[i]), CellOffset(f, hdr) + 2 * i), f, hdr, cells, i + 1)
  {
    hide MoveOne, Packed, PointersMoved, ContentsMoved, Content, SameOn, Total, InPage;
    CellInside(d0, cells, i);
    var ps, off, c := Packed(cells, f.usable), CellOffset(f, hdr), Content(d0, cells[i]);
    PackedAt(cells, f.usable, i);
    TotalPrefix(cells, i);
    ContentSize(d0, cells[i]);
    var d' := MoveOne(d, ps[i].start, c, off + 2 * i);
    MoveOneFrame(d0, d, ps[i].start, c, off + 2 * i, 0, off);
    MoveOneFrame(d0, d, ps[i].start, c, off + 2 * i, f.usable, |d0|);
    PointersStep(d, off, ps, cells, i, c);
    ContentsStep(d0, d, f, cells, i, off + 2 * i);
  }

  lemma CellInside(d: seq<byte>, cells: seq<Span>, i: nat)
    requires InPage(d, cells) && i < |cells|
    ensures cells[i].End() <= |d|
  {
  }

  lemma ContentSize(d: seq<byte>, s: Span)
    requires s.End() <= |d|
    ensures |Content(d, s)| == s.size
  {
  }

  lemma PointersStep(d: seq<byte>, off: nat, ps: seq<Span>, cells: seq<Span>, i: nat, c: seq<byte>)
    requires PointersMoved(d, off, ps, cells, i) && i < |cells| && off + 2 * |cells| <= ps[i].start && ps[i].start + |c| <= |d| <= 0x1_0000 && |c| > 0
    ensures PointersMoved(MoveOne(d, ps[i].start, c, off + 2 * i), off, ps, cells, i + 1)
  {
    var d' := MoveOne(d, ps[i].start, c, off + 2 * i);
    MoveOneReads(d, ps[i].start, c, off + 2 * i);
    forall k | 0 <= k < |cells| ensures Get2(d', off + 2 * k) == if k < i + 1 then ps[k].start else cells[k].start {
      if k != i {
        MoveOneSame(d, ps[i].start, c, off + 2 * i, off + 2 * k, off + 2 * k + 2);
        hide MoveOne;
        assert Get2(d', off + 2 * k) == Get2(d, off + 2 * k);
      }
    }
  }

  lemma ContentsStep(d0: seq<byte>, d: seq<byte>, f: Format, cells: seq<Span>, i: nat, p: nat)
    requires Total(cells) <= f.usable <= |d| <= 0x1_0000 && ContentsMoved(d0, d, Packed(cells, f.usable), cells, i) && i < |cells| && InPage(d0, cells)
    requires var a := Packed(cells, f.usable)[i].start; p + 2 <= a && a + cells[i].size <= |d| && cells[i].size > 0
    ensures ContentsMoved(d0, MoveOne(d, Packed(cells, f.usable)[i].start, Content(d0, cells[i]), p), Packed(cells, f.usable), cells, i + 1)
  {
    hide MoveOne, Packed, Total, Content;
    var ps, c := Packed(cells, f.usable), Content(d0, cells[i]);
    ContentSize(d0, cells[i]);
    forall k | 0 <= k < i + 1 ensures ps[k].End() <= |d| && Content(MoveOne(d, ps[i].start, c, p), ps[k]) == Content(d0, cells[k]) {
      ContentAt(d0, d, f, cells, i, p, k);
    }
  }

  lemma ContentAt(d0: seq<byte>, d: seq<byte>, f: Format, cells: seq<Span>, i: nat, p: nat, k: nat)
    requires Total(cells) <= f.usable <= |d| <= 0x1_0000 && ContentsMoved(d0, d, Packed(cells, f.usable), cells, i)
    requires k <= i < |cells| && InPage(d0, cells)
    requires var a := Packed(cells, f.usable)[i].start; p + 2 <= a && a + cells[i].size <= |d| && cells[i].size > 0
    ensures var ps := Packed(cells, f.usable);
      ps[k].End() <= |d| && Content(MoveOne(d, ps[i].start, Content(d0, cells[i]), p), ps[k]) == Content(d0, cells[k])
  {
    hide MoveOne, Packed, Total, SameOn;
    var ps, c := Packed(cells, f.usable), Content(d0, cells[i]);
    PackedAt(cells, f.usable, i);
    TotalPrefix(cells, i);
    if k < i {
      PackedAt(cells, f.usable, k);
      TotalMore(cells, k, i);
      MoveOneSame(d, ps[i].start, c, p, ps[k].start, ps[k].End());
    } else {
      MoveOneReads(d, ps[i].start, c, p);
    }
  }

  lemma SameSlice(d: seq<byte>, d': seq<byte>, lo: nat, hi: nat)
    requires |d| == |d'| && lo <= hi <= |d| && forall b :: lo <= b < hi ==> d'[b] == d[b]
    ensures d'[lo..hi] == d[lo..hi]
  {
  }

  lemma {:induction false} TotalMore(cells: seq<Span>, k: nat, i: nat)
    requires k < i <= |cells|
    ensures Total(cells[..k + 1]) <= Total(cells[..i])
    decreases i
  {
    if k + 1 < i {
      TotalMore(cells, k, i - 1);
      TotalPrefix(cells, i - 1);
    }
  }

  /** The header once all free space lies in one piece between the pointers and the cells. */
  function Tidy(d: seq<byte>, hdr: nat, lo: nat, cbrk: nat): (r: seq<byte>)
    requires hdr + 12 <= |d| && hdr + 8 <= lo <= cbrk <= |d|
    ensures |r| == |d|
  {
    Over(Put2(d, hdr + 5, cbrk)[hdr + 1 := 0][hdr + 2 := 0][hdr + 7 := 0], lo, Zeros(cbrk - lo))
  }

  lemma TidyReads(d: seq<byte>, hdr: nat, lo: nat, cbrk: nat)
    requires hdr + 12 <= |d| <= 0x1_0000 && hdr + 8 <= lo <= cbrk <= |d| && cbrk > 0
    ensures var d' := Tidy(d, hdr, lo, cbrk); Top(d', hdr) == cbrk && Get2(d', hdr + 1) == 0 && d'[hdr + 7] == 0
  {
    NewTop(d, hdr, cbrk);
    SameTop(Put2(d, hdr + 5, cbrk), Tidy(d, hdr, lo, cbrk), hdr);
  }

  lemma TidySame(d: seq<byte>, hdr: nat, lo: nat, cbrk: nat, a: nat, b: nat)
    requires hdr + 12 <= |d| && hdr + 8 <= lo <= cbrk <= |d| && a <= b <= |d|
    requires b <= hdr + 1 || (hdr + 3 <= a && b <= hdr + 5) || (hdr + 8 <= a && b <= lo) || cbrk <= a
    ensures SameOn(d, Tidy(d, hdr, lo, cbrk), a, b) && Tidy(d, hdr, lo, cbrk)[a..b] == d[a..b]
  {
  }

  lemma Defragmented(d0: seq<byte>, d: seq<byte>, f: Format, hdr: nat, nFree: nat, cells: seq<Span>, blocks: seq<Span>, lost: nat)
    requires PageOk(d0, f, hdr, nFree, cells, blocks, lost) && Moved(d0, d, f, hdr, cells, |cells|)
    ensures Total(cells) <= f.usable && CellOffset(f, hdr) + 2 * |cells| <= f.usable - Total(cells)
    ensures var lo, ps := CellOffset(f, hdr) + 2 * |cells|, Packed(cells, f.usable);
            var d' := Tidy(d, hdr, lo, f.usable - Total(cells));
      && PageOk(d', f, hdr, nFree + lost, ps, [], 0) && InPage(d0, cells) && InPage(d', ps) && Contents(d', ps) == Contents(d0, cells) && Frame(d0, d', f, hdr)
      && Top(d', hdr) == lo + nFree + lost
  {
    hide Tidy, Packed, Get2, Contents, Area, Chained, AllCells, Frame, Pointed, Total, Spaced, InPage, SameOn, PointersMoved, ContentsMoved, Laid;
    PageTotals(d0, f, hdr, nFree, cells, blocks, lost);
    var off, lo, ps, cbrk := CellOffset(f, hdr), CellOffset(f, hdr) + 2 * |cells|, Packed(cells, f.usable), f.usable - Total(cells);
    var d' := Tidy(d, hdr, lo, cbrk);
    TidyReads(d, hdr, lo, cbrk);
    TidyContents(d0, d, f.usable, hdr, cells, ps, lo, cbrk);
    TidyPointers(d, hdr, off, ps, cells, cbrk);
    TidyFrame(d0, d, f, hdr, lo, cbrk);
    TidyLaid(d', f.usable, hdr, lo, cells);
    NoBlocks();
  }

  lemma PageTotals(d: seq<byte>, f: Format, hdr: nat, nFree: nat, cells: seq<Span>, blocks: seq<Span>, lost: nat)
    requires PageOk(d, f, hdr, nFree, cells, blocks, lost)
    ensures f.Sane() && hdr + 12 <= f.usable <= |d| <= 0x1_0000
    ensures Total(cells) + CellOffset(f, hdr) + 2 * |cells| + nFree + lost == f.usable
    ensures CellOffset(f, hdr) + 2 * |cells| <= Top(d, hdr) <= f.usable
    ensures forall i :: 0 <= i < |cells| ==> cells[i].size >= 4
  {
  }

  lemma NoBlocks()
    ensures Total([]) == 0 && Spaced([], 0)
  {
  }

  lemma TidyLaid(d: seq<byte>, usable: nat, hdr: nat, lo: nat, cells: seq<Span>)
    requires hdr + 12 <= usable <= |d| && usable <= 0x1_0000 && hdr + 8 <= lo && Total(cells) + lo <= usable
    requires forall i :: 0 <= i < |cells| ==> cells[i].size >= 4
    requires Top(d, hdr) == usable - Total(cells) && d[hdr + 7] == 0 && Get2(d, hdr + 1) == 0
    ensures Laid(d, usable, hdr, lo, Packed(cells, usable), [], 0)
  {
    hide Packed, Total, Get2, Chained;
    PackedArea(cells, usable, lo);
    NoChain(d, hdr);
    NoBlocks();
  }

  lemma NoChain(d: seq<byte>, hdr: nat)
    requires hdr + 12 <= |d| && Get2(d, hdr + 1) == 0
    ensures Chained(d, hdr, [])
  {
  }

  lemma TidyFrame(d0: seq<byte>, d: seq<byte>, f: Format, hdr: nat, lo: nat, cbrk: nat)
    requires hdr + 12 <= |d| && |d| == |d0| && CellOffset(f, hdr) <= lo <= cbrk <= f.usable <= |d|
    requires SameOn(d0, d, 0, CellOffset(f, hdr)) && SameOn(d0, d, f.usable, |d0|)
    ensures Frame(d0, Tidy(d, hdr, lo, cbrk), f, hdr) && Get2(Tidy(d, hdr, lo, cbrk), hdr + 3) == Get2(d0, hdr + 3)
  {
    hide Tidy;
    TidySame(d, hdr, lo, cbrk, 0, hdr + 1);
    TidySame(d, hdr, lo, cbrk, hdr + 3, hdr + 5);
    TidySame(d, hdr, lo, cbrk, hdr + 8, CellOffset(f, hdr));
    TidySame(d, hdr, lo, cbrk, f.usable, |d|);
  }

  lemma TidyPointers(d: seq<byte>, hdr: nat, off: nat, ps: seq<Span>, cells: seq<Span>, cbrk: nat)
    requires hdr + 12 <= |d| && hdr + 8 <= off && off + 2 * |cells| <= cbrk <= |d| && PointersMoved(d, off, ps, cells, |cells|)
    ensures Pointed(Tidy(d, hdr, off + 2 * |cells|, cbrk), off, ps)
  {
    hide Tidy;
    var d' := Tidy(d, hdr, off + 2 * |cells|, cbrk);
    forall i | 0 <= i < |ps| ensures Get2(d', off + 2 * i) == ps[i].start {
      TidySame(d, hdr, off + 2 * |cells|, cbrk, off + 2 * i, off + 2 * i + 2);
    }
  }

  lemma TidyContents(d0: seq<byte>, d: seq<byte>, usable: nat, hdr: nat, cells: seq<Span>, ps: seq<Span>, lo: nat, cbrk: nat)
    requires ContentsMoved(d0, d, ps, cells, |cells|) && hdr + 12 <= |d| && hdr + 8 <= lo <= cbrk <= usable <= |d|
    requires Total(cells) <= usable && ps == Packed(cells, usable) && cbrk == usable - Total(cells)
    ensures InPage(Tidy(d, hdr, lo, cbrk), ps) && InPage(d0, cells) && Contents(Tidy(d, hdr, lo, cbrk), ps) == Contents(d0, cells)
  {
    hide Tidy, Packed, Total, ContentsMoved, InPage, Contents;
    forall k | 0 <= k < |cells| ensures cbrk <= ps[k].start && ps[k].End() <= usable { PackedAbove(cells, usable, k); }
    TidyRuns(d0, d, hdr, lo, cbrk, ps, cells);
  }

  lemma PackedAbove(cells: seq<Span>, usable: nat, k: nat)
    requires Total(cells) <= usable && k < |cells|
    ensures usable - Total(cells) <= Packed(cells, usable)[k].start && Packed(cells, usable)[k].End() <= usable
  {
    hide Packed, Total;
    PackedAt(cells, usable, k);
    TotalPrefix(cells, k);
  }

  lemma TidyRuns(d0: seq<byte>, d: seq<byte>, hdr: nat, lo: nat, cbrk: nat, ps: seq<Span>, cells: seq<Span>)
    requires hdr + 12 <= |d| && hdr + 8 <= lo <= cbrk <= |d| && ContentsMoved(d0, d, ps, cells, |cells|)
    requires forall k :: 0 <= k < |ps| ==> cbrk <= ps[k].start && ps[k].End() <= |d|
    ensures InPage(Tidy(d, hdr, lo, cbrk), ps) && InPage(d0, cells) && Contents(Tidy(d, hdr, lo, cbrk), ps) == Contents(d0, cells)
  {
    hide Tidy;
    var d' := Tidy(d, hdr, lo, cbrk);
    forall k | 0 <= k < |cells| ensures Content(d', ps[k]) == Content(d0, cells[k]) {
      TidySame(d, hdr, lo, cbrk, ps[k].start, ps[k].End());
    }
  }
}
