/** Allocating space on a page, inserting and dropping cells. */
module PageEdit {
  import opened Bytes
  import opened CellFormat
  import opened PageSpace
  import opened PageBytes
  import opened SlottedPage
  import opened PageDefrag

  /** The same cells, wherever they lie, on a page that is otherwise the same but for its free space. */
  ghost predicate SameCells(d0: seq<byte>, d: seq<byte>, f: Format, hdr: nat, cells0: seq<Span>, cells: seq<Span>) {
    && |d| == |d0| && |cells| == |cells0| && InPage(d0, cells0) && InPage(d, cells) && Contents(d, cells) == Contents(d0, cells0)
    && Frame(d0, d, f, hdr)
  }

  lemma SameCellsSelf(d: seq<byte>, f: Format, hdr: nat, nFree: nat, cells: seq<Span>, blocks: seq<Span>, lost: nat)
    requires PageOk(d, f, hdr, nFree, cells, blocks, lost)
    ensures SameCells(d, d, f, hdr, cells, cells)
  {
    PageTotals(d, f, hdr, nFree, cells, blocks, lost);
  }

  lemma SameCellsTrans(d0: seq<byte>, d1: seq<byte>, d: seq<byte>, f: Format, hdr: nat, cells0: seq<Span>, cells1: seq<Span>, cells: seq<Span>)
    requires SameCells(d0, d1, f, hdr, cells0, cells1) && SameCells(d1, d, f, hdr, cells1, cells)
    ensures SameCells(d0, d, f, hdr, cells0, cells)
  {
    hide Contents;
  }

  lemma CellOnPage(d: seq<byte>, f: Format, hdr: nat, nFree: nat, cells: seq<Span>, blocks: seq<Span>, i: nat, lost: nat)
    requires PageOk(d, f, hdr, nFree, cells, blocks, lost) && i < |cells|
    ensures var c := cells[i];
      && CellOffset(f, hdr) + 2 * i + 2 <= |d| && Get2(d, CellOffset(f, hdr) + 2 * i) == c.start
      && CellOffset(f, hdr) + 2 * |cells| <= Top(d, hdr) <= c.start && c.start + 4 <= c.End() <= f.usable <= |d|
      && CellSize(f, d[c.start..]) == c.size && IsCell(f, Content(d, c))
  {
    hide Get2, CellSize, IsCell, Total;
    var c := cells[i];
    assert Contents(d, cells)[i] == Content(d, c);
    assert d[c.start..] == Content(d, c) + d[c.End()..];
    assert |Content(d, c)| == c.size;
    CellDelimited(f, Content(d, c), d[c.End()..]);
    assert CellSize(f, Content(d, c)) == c.size by { CellIsWhole(f, Content(d, c)); }
  }

  lemma CellIsWhole(f: Format, c: seq<byte>)
    requires f.Sane() && IsCell(f, c)
    ensures CellSize(f, c) == |c|
  {
  }

  lemma StartMoving(d: seq<byte>, f: Format, hdr: nat, nFree: nat, cells: seq<Span>, blocks: seq<Span>, lost: nat)
    requires PageOk(d, f, hdr, nFree, cells, blocks, lost)
    ensures Moved(d, d, f, hdr, cells, 0)
  {
    hide Packed, Area, Chained;
    PageTotals(d, f, hdr, nFree, cells, blocks, lost);
  }

  /** Moves cell i, read from the copy temp of the page, to just below cbrk. */
  method MoveCell(data: array<byte>, temp: seq<byte>, f: Format, hdr: nat, nCell: nat, i: nat, cbrk: nat,
                  ghost nFree: nat, ghost cells: seq<Span>, ghost blocks: seq<Span>, ghost lost: nat)
    returns (ok: bool, cbrk': nat)
    requires PageOk(temp, f, hdr, nFree, cells, blocks, lost) && nCell == |cells| && i < nCell
    requires Moved(temp, data[..], f, hdr, cells, i) && cbrk + Total(cells[..i]) == f.usable
    modifies data
    ensures ok && Moved(temp, data[..], f, hdr, cells, i + 1) && cbrk' + Total(cells[..i + 1]) == f.usable
  {
    hide Moved, PageOk, Packed, Get2, Put2, Over, CellSize, IsCell, Total, Top;
    PageTotals(temp, f, hdr, nFree, cells, blocks, lost);
    MovedPointer(temp, data[..], f, hdr, cells, i);
    CellOnPage(temp, f, hdr, nFree, cells, blocks, i, lost);
    MoveStep(temp, data[..], f, hdr, cells, i);
    PackedAt(cells, f.usable, i);
    TotalPrefix(cells, i);
    var pAddr, iCellFirst := CellOffset(f, hdr) + 2 * i, CellOffset(f, hdr) + 2 * nCell;
    var pc := Get2Byte(data, pAddr);
    if pc < iCellFirst || pc > f.usable - 4 { return false, cbrk; }
    var size := CellSize(f, temp[pc..]);
    if cbrk < iCellFirst + size || pc + size > f.usable { return false, cbrk; }
    CopyIn(data, cbrk - size, temp[pc..pc + size]);
    Put2Byte(data, pAddr, cbrk - size);
    return true, cbrk - size;
  }

  /** Moves all cells to the end of the page, so that the free space is in one piece; this is more than nFree if bytes had been lost, and
      then, and only then, reported as corruption. */
  method DefragmentPage(data: array<byte>, f: Format, hdr: nat, nCell: nat, nFree: nat, ghost cells: seq<Span>, ghost blocks: seq<Span>, ghost lost: nat)
    returns (ok: bool, ghost cells': seq<Span>)
    requires PageOk(data[..], f, hdr, nFree, cells, blocks, lost) && nCell == |cells|
    modifies data
    ensures (ok <==> lost == 0) && PageOk(data[..], f, hdr, nFree + lost, cells', [], 0) && |cells'| == |cells|
    ensures SameCells(old(data[..]), data[..], f, hdr, cells, cells')
    ensures Top(data[..], hdr) == CellOffset(f, hdr) + 2 * nCell + nFree + lost
  {
    hide Moved, PageOk, Packed, Contents, Frame, Get2, Put2, Over, Total, Top;
    ghost var d0 := data[..];
    PageTotals(d0, f, hdr, nFree, cells, blocks, lost);
    StartMoving(d0, f, hdr, nFree, cells, blocks, lost);
    cells' := Packed(cells, f.usable);
    var temp := data[..];
    var iCellFirst, cbrk: nat := CellOffset(f, hdr) + 2 * nCell, f.usable;
    assert cells[..0] == [] && Total([]) == 0 by { NoBlocks(); }
    var i := 0;
    while i < nCell
      invariant i <= nCell && Moved(d0, data[..], f, hdr, cells, i) && cbrk + Total(cells[..i]) == f.usable
    {
      ok, cbrk := MoveCell(data, temp, f, hdr, nCell, i, cbrk, nFree, cells, blocks, lost);
      i := i + 1;
    }
    assert cells[..nCell] == cells;
    Defragmented(d0, data[..], f, hdr, nFree, cells, blocks, lost);
    Put2Byte(data, hdr + 5, cbrk);
    data[hdr + 1] := 0;
    data[hdr + 2] := 0;
    data[hdr + 7] := 0;
    CopyIn(data, iCellFirst, Zeros(cbrk - iCellFirst));
    if cbrk - iCellFirst != nFree { return false, cells'; }
    return true, cells';
  }

  lemma MovedPointer(d0: seq<byte>, d: seq<byte>, f: Format, hdr: nat, cells: seq<Span>, i: nat)
    requires Moved(d0, d, f, hdr, cells, i) && i < |cells|
    ensures |d| == |d0| && CellOffset(f, hdr) + 2 * |cells| <= |d| && Get2(d, CellOffset(f, hdr) + 2 * i) == cells[i].start
  {
    hide Packed;
  }

  // ----- allocating -----

  /** A page with n bytes set aside at s, above room for one more cell pointer. */
  ghost predicate SetAside(d0: seq<byte>, d: seq<byte>, f: Format, hdr: nat, cells0: seq<Span>, cells: seq<Span>, s: Span, blocks: seq<Span>, lost: nat) {
    && f.Sane() && |d| <= 0x1_0000
    && Laid(d, f.usable, hdr, CellOffset(f, hdr) + 2 * |cells| + 2, cells + [s], blocks, lost) && Spaced(blocks, |blocks|)
    && Get2(d, hdr + 3) == |cells| && Pointed(d, CellOffset(f, hdr), cells)
    && SameCells(d0, d, f, hdr, cells0, cells)
  }

  /** What is left of a page once its blocks or its top have given way to s. */
  lemma Gave(d0: seq<byte>, d: seq<byte>, f: Format, hdr: nat, nFree: nat, cells: seq<Span>, s: Span, blocks: seq<Span>, blocks': seq<Span>, lost: nat)
    requires PageOk(d0, f, hdr, nFree, cells, blocks, lost)
    requires Laid(d, f.usable, hdr, CellOffset(f, hdr) + 2 * |cells| + 2, cells + [s], blocks', lost) && Spaced(blocks', |blocks'|)
    requires Kept(d0, d, f.usable, hdr, CellOffset(f, hdr) + 2 * |cells|, cells)
    ensures SetAside(d0, d, f, hdr, cells, cells, s, blocks', lost)
  {
    hide Laid, Get2;
    var off := CellOffset(f, hdr);
    KeptContents(d0, d, f.usable, hdr, off + 2 * |cells|, cells);
    KeptPointers(d0, d, f.usable, hdr, off, off + 2 * |cells|, cells, cells);
    KeptFrame(d0, d, f, hdr, off + 2 * |cells|, cells);
  }

  lemma KeptFrame(d0: seq<byte>, d: seq<byte>, f: Format, hdr: nat, lo: nat, used: seq<Span>)
    requires Kept(d0, d, f.usable, hdr, lo, used) && CellOffset(f, hdr) <= lo
    ensures Frame(d0, d, f, hdr)
  {
  }

  /** The bytes after n bytes are taken from the end of block k. */
  function TakenBytes(d: seq<byte>, hdr: nat, blocks: seq<Span>, k: nat, n: nat): (r: seq<byte>)
    requires k < |blocks| && n <= blocks[k].size && blocks[k].start + 4 <= |d| && hdr + 12 <= |d| && Link(hdr, blocks, k) + 2 <= |d|
    requires blocks[k].size - n < 4 ==> d[hdr + 7] + blocks[k].size - n < 256
    ensures |r| == |d|
  {
    var x := blocks[k].size - n;
    if x < 4 then LinkPast(d, hdr, blocks, k)[hdr + 7 := d[hdr + 7] + x] else Put2(d, blocks[k].start + 2, x)
  }

  lemma TakenChain(d: seq<byte>, hdr: nat, blocks: seq<Span>, k: nat, n: nat)
    requires Within(blocks, hdr + 8, |d|) && hdr + 12 <= |d| <= 0x1_0000 && Chained(d, hdr, blocks) && Ascending(blocks)
    requires k < |blocks| && n <= blocks[k].size && (blocks[k].size - n < 4 ==> d[hdr + 7] + blocks[k].size - n < 256)
    ensures Link(hdr, blocks, k) + 2 <= |d| && Within(Taken(blocks, k, n), hdr + 8, |d|)
    ensures Chained(TakenBytes(d, hdr, blocks, k, n), hdr, Taken(blocks, k, n))
  {
    hide Get2, Put2, Chained, LinkPast, Ascending;
    LinkInside(d, hdr, blocks, k);
    TakenInside(blocks, k, n, hdr + 8, |d|);
    var x := blocks[k].size - n;
    if x < 4 {
      ChainPast(d, hdr, blocks, k);
      FragByte(LinkPast(d, hdr, blocks, k), hdr, Without(blocks, k), d[hdr + 7] + x);
    } else {
      ChainShrunk(d, hdr, blocks, k, x);
    }
  }

  lemma TakenInside(blocks: seq<Span>, k: nat, n: nat, lo: nat, hi: nat)
    requires Within(blocks, lo, hi) && k < |blocks| && n <= blocks[k].size
    ensures Within(Taken(blocks, k, n), lo, hi)
    ensures blocks[k].size - n < 4 ==> Taken(blocks, k, n) == Without(blocks, k)
  {
  }

  lemma TakenKept(d: seq<byte>, usable: nat, hdr: nat, lo: nat, used: seq<Span>, blocks: seq<Span>, k: nat, n: nat)
    requires hdr + 12 <= usable <= |d| && hdr + 8 <= lo <= |d| && Within(used, lo, usable)
    requires Within(blocks, lo, usable) && NoneMeets(used, blocks)
    requires k < |blocks| && n <= blocks[k].size && (blocks[k].size - n < 4 ==> d[hdr + 7] + blocks[k].size - n < 256)
    ensures Link(hdr, blocks, k) + 2 <= |d|
    ensures var d', x := TakenBytes(d, hdr, blocks, k, n), blocks[k].size - n;
      && Kept(d, d', usable, hdr, lo, used) && Top(d', hdr) == Top(d, hdr) && d'[hdr + 7] == if x < 4 then d[hdr + 7] + x else d[hdr + 7]
  {
    hide FreeByte, Kept, NoneMeets;
    var x := blocks[k].size - n;
    if x < 4 {
      var d1 := LinkPast(d, hdr, blocks, k);
      LinkBytes(usable, hdr, lo, used, blocks, k);
      HeaderBytes(usable, hdr, lo, used);
      KeptPut2(d, Link(hdr, blocks, k), LinkTarget(blocks, k + 1), usable, hdr, lo, used);
      KeptPut(d1, hdr + 7, d[hdr + 7] + x, usable, hdr, lo, used);
      KeptTrans(d, d1, d1[hdr + 7 := d[hdr + 7] + x], usable, hdr, lo, used);
    } else {
      KeptFields(d, usable, hdr, lo, used, blocks, k, 0, x);
    }
  }

  lemma TakeStep(d: seq<byte>, f: Format, hdr: nat, nFree: nat, cells: seq<Span>, blocks: seq<Span>, k: nat, n: nat, lost: nat)
    requires PageOk(d, f, hdr, nFree, cells, blocks, lost) && k < |blocks| && 4 <= n <= blocks[k].size
    requires CellOffset(f, hdr) + 2 * |cells| + 2 <= Top(d, hdr) && (blocks[k].size - n < 4 ==> d[hdr + 7] + blocks[k].size - n < 256)
    ensures hdr + 12 <= |d| && blocks[k].start + 4 <= |d| && Link(hdr, blocks, k) + 2 <= |d|
    ensures SetAside(d, TakenBytes(d, hdr, blocks, k, n), f, hdr, cells, cells, Span(blocks[k].start + blocks[k].size - n, n), Taken(blocks, k, n), lost)
  {
    hide Area, Chained, Kept, Total, Taken, TakenBytes, Contents, Pointed, Frame, NoneMeets, AllCells, Spaced, SetAside;
    var lo, x := CellOffset(f, hdr) + 2 * |cells|, blocks[k].size - n;
    AreaTaken(f.usable, Top(d, hdr), d[hdr + 7] + lost, cells, blocks, k, n);
    BlocksApart(f.usable, Top(d, hdr), d[hdr + 7] + lost, cells, blocks);
    TakenKept(d, f.usable, hdr, lo, cells, blocks, k, n);
    TakenChain(d, hdr, blocks, k, n);
    SpacedTaken(blocks, k, n);
    Gave(d, TakenBytes(d, hdr, blocks, k, n), f, hdr, nFree, cells, Span(blocks[k].start + x, n), blocks, Taken(blocks, k, n), lost);
  }

  lemma GapStep(d: seq<byte>, f: Format, hdr: nat, nFree: nat, cells: seq<Span>, blocks: seq<Span>, n: nat, lost: nat)
    requires PageOk(d, f, hdr, nFree, cells, blocks, lost) && 4 <= n && CellOffset(f, hdr) + 2 * |cells| + 2 + n <= Top(d, hdr)
    ensures hdr + 12 <= |d|
    ensures SetAside(d, Put2(d, hdr + 5, Top(d, hdr) - n), f, hdr, cells, cells, Span(Top(d, hdr) - n, n), blocks, lost)
  {
    hide Area, Kept, Total, Contents, Pointed, Frame, NoneMeets, AllCells, Spaced, FreeByte, SetAside;
    var lo, top := CellOffset(f, hdr) + 2 * |cells|, Top(d, hdr);
    AreaGrown(f.usable, top, d[hdr + 7] + lost, cells, blocks, n);
    BlocksApart(f.usable, top, d[hdr + 7] + lost, cells, blocks);
    var d' := Put2(d, hdr + 5, top - n);
    HeaderBytes(f.usable, hdr, lo, cells);
    KeptPut2(d, hdr + 5, top - n, f.usable, hdr, lo, cells);
    NewTop(d, hdr, top - n);
    ChainElsewhere(d, d', hdr, blocks);
    Gave(d, d', f, hdr, nFree, cells, Span(top - n, n), blocks, blocks, lost);
  }

  lemma NextLinkOk(d: seq<byte>, f: Format, hdr: nat, nFree: nat, cells: seq<Span>, blocks: seq<Span>, k: nat, lost: nat)
    requires PageOk(d, f, hdr, nFree, cells, blocks, lost) && k <= |blocks|
    ensures Link(hdr, blocks, k) + 4 <= |d| && Get2(d, Link(hdr, blocks, k)) == LinkTarget(blocks, k)
    ensures k < |blocks| ==> Link(hdr, blocks, k) + 4 <= blocks[k].start && blocks[k].start + 4 <= blocks[k].End() <= f.usable <= |d| && Get2(d, blocks[k].start + 2) == blocks[k].size
  {
    if k < |blocks| { assert blocks[k].size >= 4; }
    hide Area;
    NextLink(d, f.usable, hdr, CellOffset(f, hdr) + 2 * |cells|, cells, blocks, k, lost);
  }

  /** The first free block of at least nByte bytes, if any. */
  method FindSlot(data: array<byte>, f: Format, hdr: nat, nByte: nat, ghost nFree: nat, ghost cells: seq<Span>, ghost blocks: seq<Span>, ghost lost: nat)
    returns (ok: bool, addr: nat, pc: nat, ghost k: nat)
    requires PageOk(data[..], f, hdr, nFree, cells, blocks, lost)
    ensures ok && k <= |blocks| && addr == Link(hdr, blocks, k) && pc == LinkTarget(blocks, k)
    ensures if pc > 0 then k < |blocks| && nByte <= blocks[k].size else k == |blocks|
    ensures forall i :: 0 <= i < k ==> blocks[i].size < nByte
  {
    hide PageOk, Get2;
    k, addr := 0, hdr + 1;
    NextLinkOk(data[..], f, hdr, nFree, cells, blocks, k, lost);
    pc := Get2Byte(data, addr);
    while pc > 0
      invariant k <= |blocks| && addr == Link(hdr, blocks, k) && pc == LinkTarget(blocks, k)
      invariant forall i :: 0 <= i < k ==> blocks[i].size < nByte
      decreases |blocks| - k
    {
      NextLinkOk(data[..], f, hdr, nFree, cells, blocks, k, lost);
      if pc > f.usable - 4 || pc < addr + 4 { return false, addr, pc, k; }
      var size := Get2Byte(data, pc + 2);
      if size >= nByte { return true, addr, pc, k; }
      addr, k := pc, k + 1;
      NextLinkOk(data[..], f, hdr, nFree, cells, blocks, k, lost);
      pc := Get2Byte(data, addr);
    }
    NextLinkOk(data[..], f, hdr, nFree, cells, blocks, k, lost);
    return true, addr, pc, k;
  }

  /** Takes nByte bytes from the end of the block found. */
  method TakeSlot(data: array<byte>, f: Format, hdr: nat, nFrag: nat, addr: nat, pc: nat, nByte: nat,
                  ghost nFree: nat, ghost cells: seq<Span>, ghost blocks: seq<Span>, ghost k: nat, ghost lost: nat)
    returns (ok: bool, idx: nat)
    requires PageOk(data[..], f, hdr, nFree, cells, blocks, lost) && k < |blocks| && 4 <= nByte <= blocks[k].size
    requires addr == Link(hdr, blocks, k) && pc == blocks[k].start && hdr + 12 <= data.Length && nFrag == data[hdr + 7] as int && nFrag < 60
    requires CellOffset(f, hdr) + 2 * |cells| + 2 <= Top(data[..], hdr)
    modifies data
    ensures ok && idx == blocks[k].End() - nByte
    ensures SetAside(old(data[..]), data[..], f, hdr, cells, cells, Span(idx, nByte), Taken(blocks, k, nByte), lost)
  {
    hide PageOk, SetAside, Get2, Put2;
    ghost var d := data[..];
    NextLinkOk(d, f, hdr, nFree, cells, blocks, k, lost);
    TakeStep(d, f, hdr, nFree, cells, blocks, k, nByte, lost);
    NextLinkOk(d, f, hdr, nFree, cells, blocks, k + 1, lost);
    var size := Get2Byte(data, pc + 2);
    var x := size - nByte;
    if x < 4 {
      var next := Get2Byte(data, pc);
      Put2Byte(data, addr, next);
      data[hdr + 7] := nFrag + x;
    } else if size + pc > f.usable {
      return false, pc;
    } else {
      Put2Byte(data, pc + 2, x);
    }
    return true, pc + x;
  }

  /** A page whose cells have moved, seen from before. */
  lemma SetAsideAfter(d0: seq<byte>, d1: seq<byte>, d: seq<byte>, f: Format, hdr: nat, cells0: seq<Span>, cells: seq<Span>, s: Span, blocks: seq<Span>, lost: nat)
    requires SetAside(d1, d, f, hdr, cells, cells, s, blocks, lost) && SameCells(d0, d1, f, hdr, cells0, cells)
    ensures SetAside(d0, d, f, hdr, cells0, cells, s, blocks, lost)
  {
    hide Laid, SameCells;
    SameCellsTrans(d0, d1, d, f, hdr, cells0, cells, cells);
  }

  /** Takes nByte bytes from the gap between the pointers and the cells. */
  method TakeGap(data: array<byte>, f: Format, hdr: nat, top: nat, nByte: nat, ghost nFree: nat, ghost cells: seq<Span>, ghost blocks: seq<Span>, ghost lost: nat)
    returns (idx: nat)
    requires PageOk(data[..], f, hdr, nFree, cells, blocks, lost) && 4 <= nByte && hdr + 12 <= data.Length && top == Top(data[..], hdr)
    requires CellOffset(f, hdr) + 2 * |cells| + 2 + nByte <= top
    modifies data
    ensures idx == top - nByte && SetAside(old(data[..]), data[..], f, hdr, cells, cells, Span(idx, nByte), blocks, lost)
  {
    hide PageOk, SetAside, Put2, Top;
    GapStep(data[..], f, hdr, nFree, cells, blocks, nByte, lost);
    Put2Byte(data, hdr + 5, top - nByte);
    return top - nByte;
  }

  /** A page that has to be defragmented before nByte bytes can be set aside on it. */
  ghost predicate Crowded(d: seq<byte>, f: Format, hdr: nat, nCell: nat, blocks: seq<Span>, nByte: nat)
    requires hdr + 12 <= |d|
  {
    var gap := CellOffset(f, hdr) + 2 * nCell;
    d[hdr + 7] >= 60
    || (gap + 2 + nByte > Top(d, hdr) && (gap + 2 > Top(d, hdr) || forall i :: 0 <= i < |blocks| ==> blocks[i].size < nByte))
  }

  /** Sets nByte bytes aside, leaving room for one more cell pointer: in the first free block that is large enough, else in
      the gap, if need be after defragmenting the page.  It fails exactly if that is needed on a page that has lost bytes. */
  method AllocateSpace(data: array<byte>, f: Format, hdr: nat, nCell: nat, nFree: nat, nByte: nat, ghost cells: seq<Span>, ghost blocks: seq<Span>, ghost lost: nat)
    returns (ok: bool, idx: nat, ghost cells': seq<Span>, ghost blocks': seq<Span>)
    requires PageOk(data[..], f, hdr, nFree, cells, blocks, lost) && nCell == |cells| && 4 <= nByte && nByte + 2 <= nFree
    modifies data
    ensures hdr + 12 <= data.Length && (ok <==> lost == 0 || !Crowded(old(data[..]), f, hdr, nCell, blocks, nByte))
    ensures ok ==> SetAside(old(data[..]), data[..], f, hdr, cells, cells', Span(idx, nByte), blocks', lost)
    ensures !ok ==> PageOk(data[..], f, hdr, nFree + lost, cells', blocks', 0) && SameCells(old(data[..]), data[..], f, hdr, cells, cells')
  {
    hide PageOk, SetAside, SameCells, Get2, Put2, Link, LinkTarget, Taken;
    ghost var d0 := data[..];
    PageTotals(d0, f, hdr, nFree, cells, blocks, lost);
    SameCellsSelf(d0, f, hdr, nFree, cells, blocks, lost);
    idx, cells', blocks' := 0, cells, blocks;
    var nFrag: nat := data[hdr + 7];
    var gap := CellOffset(f, hdr) + 2 * nCell;
    var top := Get2Byte(data, hdr + 5);
    top := NotZero(top);
    if gap > top { return false, idx, cells', blocks'; }
    if nFrag >= 60 {
      ok, cells' := DefragmentPage(data, f, hdr, nCell, nFree, cells, blocks, lost);
      blocks' := [];
      if !ok { return false, idx, cells', blocks'; }
      top := Get2Byte(data, hdr + 5);
      top := NotZero(top);
    } else if gap + 2 <= top {
      var addr, pc;
      ghost var k;
      ok, addr, pc, k := FindSlot(data, f, hdr, nByte, nFree, cells, blocks, lost);
      if pc > 0 {
        SlotStart(blocks, k);
        ok, idx := TakeSlot(data, f, hdr, nFrag, addr, pc, nByte, nFree, cells, blocks, k, lost);
        return ok, idx, cells, Taken(blocks, k, nByte);
      }
    }
    if gap + 2 + nByte > top {
      ghost var d1, c1 := data[..], cells';
      ok, cells' := DefragmentPage(data, f, hdr, nCell, nFree, c1, blocks', lost);
      blocks' := [];
      if !ok { return false, idx, cells', blocks'; }
      SameCellsTrans(d0, d1, data[..], f, hdr, cells, c1, cells');
      top := Get2Byte(data, hdr + 5);
      top := NotZero(top);
    }
    ghost var d2 := data[..];
    idx := TakeGap(data, f, hdr, top, nByte, nFree, cells', blocks', lost);
    SetAsideAfter(d0, d2, data[..], f, hdr, cells, cells', Span(idx, nByte), blocks', lost);
    ok := true;
  }

  lemma SlotStart(blocks: seq<Span>, k: nat)
    ensures k < |blocks| ==> LinkTarget(blocks, k) == blocks[k].start
  {
  }
}
