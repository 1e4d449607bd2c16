/** Payloads that spill from a cell onto a chain of overflow pages: written, read back, overwritten and freed. */
module Payload {
  import opened Bytes
  import opened CellFormat
  import opened CellHeader
  import opened OverflowChain
  import opened PtrMap
  import opened Freelist

  /** Page numbers stay below this. */
  const MAX_PAGE := 0x8000_0000

  /** The cell and its chain hold the payload p. */
  ghost predicate CellHolds(f: Format, page: map<nat, seq<byte>>, cell: seq<byte>, chain: seq<nat>, p: seq<byte>)
    requires f.Sane()
  {
    var info := ParseCell(f, cell);
    && info.nPayload == |p| && info.nHeader + info.nLocal <= |cell|
    && cell[info.nHeader..info.nHeader + info.nLocal] == p[..info.nLocal]
    && NoPageTwice(chain) && Holds(page, chain, f.usable - 4, p[info.nLocal..])
    && (chain != [] ==> info.iOverflow == info.nHeader + info.nLocal && info.iOverflow + 4 <= |cell| && Get4(cell, info.iOverflow) == chain[0])
  }

  /** The payload has been written up to w; the page or cell being filled has room for `left` bytes more. */
  ghost predicate Filled(f: Format, page: map<nat, seq<byte>>, cell: seq<byte>, h: nat, nLocal: nat, chain: seq<nat>, p: seq<byte>, w: nat, left: nat)
    requires f.Sane()
  {
    && w <= |p| && nLocal <= |p| && h + nLocal <= |cell|
    && if chain == [] then w + left == nLocal && cell[h..h + w] == p[..w]
       else
         && nLocal < w && h + nLocal + 4 <= |cell| && cell[h..h + nLocal] == p[..nLocal] && Get4(cell, h + nLocal) == chain[0]
         && NoPageTwice(chain) && Holds(page, chain, f.usable - 4, p[nLocal..w])
         && left <= f.usable - 4 && w - nLocal + left == Pos(|chain|, f.usable - 4)
  }

  // ----- one step of filling -----

  lemma OverKeeps(c: seq<byte>, a: nat, s: seq<byte>, lo: nat, hi: nat)
    requires a + |s| <= |c| && lo <= hi <= |c| && (hi <= a || a + |s| <= lo)
    ensures Over(c, a, s)[lo..hi] == c[lo..hi]
  {
  }

  lemma OverReads(c: seq<byte>, a: nat, s: seq<byte>)
    requires a + |s| <= |c|
    ensures Over(c, a, s)[a..a + |s|] == s
  {
  }

  lemma OverLength(c: seq<byte>, a: nat, s: seq<byte>)
    requires a + |s| <= |c|
    ensures |Over(c, a, s)| == |c|
  {
  }

  lemma NextSlice(p: seq<byte>, lo: nat, w: nat, n: nat)
    requires lo <= w && w + n <= |p|
    ensures p[lo..w] + p[w..w + n] == p[lo..w + n]
  {
  }

  /** More bytes in the cell itself. */
  lemma FillCell(f: Format, page: map<nat, seq<byte>>, cell: seq<byte>, h: nat, nLocal: nat, p: seq<byte>, w: nat, left: nat, n: nat)
    requires f.Sane() && Filled(f, page, cell, h, nLocal, [], p, w, left) && n <= left && w + n <= |p|
    ensures h + w + n <= |cell|
    ensures Filled(f, page, Over(cell, h + w, p[w..w + n]), h, nLocal, [], p, w + n, left - n)
    ensures Over(cell, h + w, p[w..w + n])[..h] == cell[..h]
  {
    var c := Over(cell, h + w, p[w..w + n]);
    OverKeeps(cell, h + w, p[w..w + n], h, h + w);
    OverReads(cell, h + w, p[w..w + n]);
    assert c[h..h + w + n] == c[h..h + w] + c[h + w..h + w + n];
    assert p[..w + n] == p[..w] + p[w..w + n];
    assert c[..h] == cell[..h];
  }

  /** More bytes on the last overflow page. */
  lemma FillPage(f: Format, page: map<nat, seq<byte>>, cell: seq<byte>, h: nat, nLocal: nat, chain: seq<nat>, p: seq<byte>, w: nat, left: nat, n: nat)
    requires f.Sane() && chain != [] && Filled(f, page, cell, h, nLocal, chain, p, w, left) && n <= left && w + n <= |p|
    ensures var l, a := chain[|chain| - 1], f.usable - left;
      && l in page && a + n <= |page[l]|
      && Filled(f, page[l := Over(page[l], a, p[w..w + n])], cell, h, nLocal, chain, p, w + n, left - n)
  {
    HoldsMore(page, chain, f.usable - 4, p[nLocal..w], p[w..w + n], f.usable - 4 - left);
    NextSlice(p, nLocal, w, n);
  }

  /** A first overflow page. */
  lemma FillFirst(f: Format, page: map<nat, seq<byte>>, cell: seq<byte>, h: nat, nLocal: nat, p: seq<byte>, w: nat, pg: nat, content: seq<byte>, n: nat)
    requires f.Sane() && Filled(f, page, cell, h, nLocal, [], p, w, 0) && h + nLocal + 4 <= |cell| && 0 < pg < 0x1_0000_0000
    requires 0 < n <= f.usable - 4 && w + n <= |p| && |content| >= f.usable && Get4(content, 0) == 0 && content[4..4 + n] == p[w..w + n]
    ensures Filled(f, page[pg := content], Over(cell, h + nLocal, Bytes4(pg)), h, nLocal, [pg], p, w + n, f.usable - 4 - n)
    ensures Over(cell, h + nLocal, Bytes4(pg))[..h] == cell[..h]
  {
    var c := Over(cell, h + nLocal, Bytes4(pg));
    OverKeeps(cell, h + nLocal, Bytes4(pg), h, h + nLocal);
    OverReads(cell, h + nLocal, Bytes4(pg));
    Bytes4Reads(pg, c, h + nLocal);
    NewPage(page[pg := content], pg, f.usable - 4, p[w..w + n]);
    assert p[nLocal..w + n] == p[w..w + n];
    assert Pos(1, f.usable - 4) == f.usable - 4 + Pos(0, f.usable - 4);
    assert c[..h] == cell[..h];
  }

  /** A further overflow page. */
  lemma FillNext(f: Format, page: map<nat, seq<byte>>, cell: seq<byte>, h: nat, nLocal: nat, chain: seq<nat>, p: seq<byte>, w: nat, pg: nat,
                 content: seq<byte>, n: nat)
    requires f.Sane() && chain != [] && Filled(f, page, cell, h, nLocal, chain, p, w, 0) && pg !in chain && 0 < pg < 0x1_0000_0000
    requires 0 < n <= f.usable - 4 && w + n <= |p| && |content| >= f.usable && Get4(content, 0) == 0 && content[4..4 + n] == p[w..w + n]
    ensures var l := chain[|chain| - 1];
      && l in page && |page[l]| >= 4
      && Filled(f, Linked(page, l, pg, content), cell, h, nLocal, chain + [pg], p, w + n, f.usable - 4 - n)
  {
    HoldsAppend(page, chain, f.usable - 4, p[nLocal..w], pg, content, p[w..w + n]);
    NextSlice(p, nLocal, w, n);
    hide Get4, Holds;
    assert Pos(|chain| + 1, f.usable - 4) == f.usable - 4 + Pos(|chain|, f.usable - 4);
  }

  /** All is written. */
  lemma FillDone(f: Format, left4: seq<byte>, nKey: nat, page: map<nat, seq<byte>>, cell: seq<byte>, chain: seq<nat>, p: seq<byte>, left: nat)
    requires GoodEntry(f, left4, |p|, nKey)
    requires var h := HeaderOf(f, left4, |p|, nKey);
      h <= cell && |cell| == ParseCell(f, h).nSize && Filled(f, page, cell, |h|, Local(f, |p|), chain, p, |p|, left)
    ensures IsCell(f, cell) && CellHolds(f, page, cell, chain, p) && ParseCell(f, cell).nKey == nKey
  {
    hide ParseCell, IsCell, HeaderOf, Holds, Get4, Local;
    CellFacts(f, left4, |p|, nKey, cell);
    if chain == [] {
      assert p[|p|..] == [] && Holds(page, [], f.usable - 4, []) by { NoBytes(page, f.usable - 4); }
    } else {
      assert p[Local(f, |p|)..|p|] == p[Local(f, |p|)..];
    }
  }

  lemma NoBytes(page: map<nat, seq<byte>>, size: nat)
    ensures Holds(page, [], size, []) && NoPageTwice([])
  {
  }

  lemma CellFacts(f: Format, left4: seq<byte>, nPayload: nat, nKey: nat, cell: seq<byte>)
    requires GoodEntry(f, left4, nPayload, nKey)
    requires var h := HeaderOf(f, left4, nPayload, nKey); h <= cell && |cell| == ParseCell(f, h).nSize
    ensures IsCell(f, cell)
    ensures var info := ParseCell(f, cell);
      && info.nKey == nKey && info.nPayload == nPayload && info.nHeader == |HeaderOf(f, left4, nPayload, nKey)| && info.nLocal == Local(f, nPayload)
      && (info.nLocal < nPayload ==> info.iOverflow == info.nHeader + info.nLocal)
  {
    hide ParseCell, IsCell, HeaderOf;
    var h := HeaderOf(f, left4, nPayload, nKey);
    FilledIsCell(f, left4, nPayload, nKey, cell);
    assert h + [] == h;
    HeaderReads(f, left4, nPayload, nKey, []);
  }

  lemma Allocated(before: multiset<nat>, after: multiset<nat>, p: nat)
    ensures after + multiset{p} == before && Once(before) ==> after <= before && p in before && p !in after && after == before - multiset{p}
    ensures after == before && p !in before ==> after == before - multiset{p}
  {
    if after + multiset{p} == before && Once(before) { assert before[p] == (after + multiset{p})[p]; }
  }

  /** The pages of the chain were free, or beyond the end of a file of n pages, and they are what the free list has lost. */
  ghost predicate TakenFrom(before: multiset<nat>, n: nat, after: multiset<nat>, chain: seq<nat>) {
    after == before - multiset(chain) && forall i :: 0 <= i < |chain| ==> chain[i] in before || n < chain[i]
  }

  /** One page more. */
  ghost predicate OneTaken(before: multiset<nat>, n: nat, after: multiset<nat>, p: nat) {
    after == before - multiset{p} && (p in before || n < p)
  }

  lemma TakenNext(before: multiset<nat>, n: nat, mid: multiset<nat>, n': nat, after: multiset<nat>, chain: seq<nat>, p: nat)
    requires TakenFrom(before, n, mid, chain) && n <= n' && OneTaken(mid, n', after, p)
    ensures TakenFrom(before, n, after, chain + [p])
  {
    assert before - multiset(chain) - multiset{p} == before - (multiset(chain) + multiset{p});
    assert multiset(chain + [p]) == multiset(chain) + multiset{p};
  }

  /** The pages in use keep their bytes. */
  ghost predicate UseKept(before: multiset<nat>, n: nat, page: map<nat, seq<byte>>, page': map<nat, seq<byte>>) {
    forall q :: q in page && q !in before && q <= n ==> q in page' && page'[q] == page[q]
  }

  /** The pages once the new one has been put after page cur, which is 0 for the cell itself. */
  function Joined(page: map<nat, seq<byte>>, cur: nat, pgno: nat, content: seq<byte>): (r: map<nat, seq<byte>>)
    requires cur != 0 ==> cur in page && |page[cur]| >= 4
  {
    if cur == 0 then page[pgno := content] else page[cur := Put4(page[cur], 0, pgno)][pgno := content]
  }

  lemma FillJoined(f: Format, page: map<nat, seq<byte>>, cell: seq<byte>, h: nat, nLocal: nat, chain: seq<nat>, p: seq<byte>, w: nat, pg: nat,
                   content: seq<byte>, n: nat)
    requires f.Sane() && Filled(f, page, cell, h, nLocal, chain, p, w, 0) && h + nLocal + 4 <= |cell| && 0 < pg < 0x1_0000_0000 && pg !in chain
    requires 0 < n <= f.usable - 4 && w + n <= |p| && |content| >= f.usable && Get4(content, 0) == 0 && content[4..4 + n] == p[w..w + n]
    requires forall q :: q in chain ==> q > 0
    ensures var cur, cell' := LastPage(chain), if LastPage(chain) == 0 then Over(cell, h + nLocal, Bytes4(pg)) else cell;
      && |cell'| == |cell| && cell'[..h] == cell[..h] && (cur != 0 ==> cur in page && |page[cur]| >= 4 && cur in chain)
      && Filled(f, Joined(page, cur, pg, content), cell', h, nLocal, chain + [pg], p, w + n, f.usable - 4 - n)
    ensures forall q :: q in page && q !in chain && q != pg ==>
              q in Joined(page, LastPage(chain), pg, content) && Joined(page, LastPage(chain), pg, content)[q] == page[q]
    ensures forall q :: q in Joined(page, LastPage(chain), pg, content) ==> q == pg || (q in page && |Joined(page, LastPage(chain), pg, content)[q]| == |page[q]|)
    ensures Joined(page, LastPage(chain), pg, content)[pg] == content
  {
    hide Filled, Get4, Put4, Linked, Over, Bytes4;
    var cur := LastPage(chain);
    if chain != [] { assert chain[|chain| - 1] in chain; }
    if cur == 0 {
      assert chain + [pg] == [pg];
      FillFirst(f, page, cell, h, nLocal, p, w, pg, content, n);
    } else {
      FillNext(f, page, cell, h, nLocal, chain, p, w, pg, content, n);
      LinkedIs(page, cur, pg, content);
    }
  }

  lemma NoneTaken(before: multiset<nat>, n: nat)
    ensures TakenFrom(before, n, before, [])
  {
  }

  lemma OthersKept(before: multiset<nat>, n: nat, after: multiset<nat>, chain: seq<nat>, page: map<nat, seq<byte>>, page': map<nat, seq<byte>>)
    requires TakenFrom(before, n, after, chain) && forall q :: q in page && q !in chain ==> q in page' && page'[q] == page[q]
    ensures UseKept(before, n, page, page')
  {
  }

  /** A payload stored before is still there after anything that keeps the pages in use. */
  lemma PayloadSurvives(f: Format, before: multiset<nat>, n: nat, page: map<nat, seq<byte>>, page': map<nat, seq<byte>>, cell: seq<byte>, chain: seq<nat>,
                        p: seq<byte>)
    requires f.Sane() && CellHolds(f, page, cell, chain, p) && UseKept(before, n, page, page')
    requires forall i :: 0 <= i < |chain| ==> chain[i] !in before && chain[i] <= n
    ensures CellHolds(f, page', cell, chain, p)
  {
    var spilled := p[ParseCell(f, cell).nLocal..];
    HoldsFrame(page, page', chain, f.usable - 4, spilled);
  }

  class PageStore {
    const usable: nat
    const pageSize: nat
    const free: FreeList
    var page: map<nat, seq<byte>>

    constructor (u: nat, size: nat, list: FreeList)
      ensures usable == u && pageSize == size && free == list && page == map[]
    {
      usable, pageSize, free, page := u, size, list, map[];
    }

    ghost predicate Valid()
      reads this, free
    {
      && 480 <= usable <= pageSize <= 65536 && free.Valid() && free.nPage > 0
      && forall p :: p in page ==> |page[p]| == pageSize
    }

    /** A page for the chain, with no page after it.  Fails only when page numbers run out. */
    method NewOverflowPage(prior: nat, ghost chain: seq<nat>) returns (ok: bool, pgno: nat, content: seq<byte>)
      requires Valid() && forall i :: 0 <= i < |chain| ==> chain[i] !in free.Free() && 2 <= chain[i] <= free.nPage
      modifies free`nPage, free`head, free`count, free`trunk, free`order
      ensures Valid() && free.nPage >= old(free.nPage) && free.Free() <= old(free.Free())
      ensures !ok ==> free.nPage >= MAX_PAGE
      ensures ok ==> 2 <= pgno < MAX_PAGE && pgno <= free.nPage && pgno !in free.Free() && pgno !in chain
      ensures ok ==> |content| == pageSize && Get4(content, 0) == 0
      ensures OneTaken(old(free.Free()), old(free.nPage), free.Free(), pgno)
    {
      hide Pages;
      var nearby := prior;
      if free.autoVacuum {
        nearby := nearby + 1;
        ghost var t := UsableSoon(free.g, nearby);
        while free.g.IsMap(nearby) || nearby == free.g.pending
          invariant nearby <= t
          decreases t - nearby
        {
          nearby := nearby + 1;
        }
      }
      ghost var before := free.Free();
      ok, pgno := free.AllocateBtreePage(nearby, Any);
      Allocated(before, free.Free(), pgno);
      content := if pgno in page then page[pgno] else Zeros(pageSize);
      content := Put4(content, 0, 0);
      Get4Put4(if pgno in page then page[pgno] else Zeros(pageSize), 0, 0);
      ok := pgno < MAX_PAGE;
    }

    /** Stores more bytes of the payload on a new page. */
    method FillNew(f: Format, info: CellInfo, cell: seq<byte>, chunk: seq<byte>, cur: nat, ghost chain: seq<nat>, ghost p: seq<byte>, ghost w: nat)
      returns (ok: bool, cell': seq<byte>, pgno: nat)
      requires Valid() && f.Sane() && f.usable == usable && Filled(f, page, cell, info.nHeader, info.nLocal, chain, p, w, 0)
      requires cur == LastPage(chain) && Own(chain)
      requires info.iOverflow == info.nHeader + info.nLocal && info.iOverflow + 4 <= |cell|
      requires 0 < |chunk| <= usable - 4 && w + |chunk| <= |p| && chunk == p[w..w + |chunk|]
      modifies this`page, free`nPage, free`head, free`count, free`trunk, free`order
      ensures Valid() && free.nPage >= old(free.nPage) && free.Free() <= old(free.Free())
      ensures !ok ==> free.nPage >= MAX_PAGE && page == old(page)
      ensures ok ==> Filled(f, page, cell', info.nHeader, info.nLocal, chain + [pgno], p, w + |chunk|, usable - 4 - |chunk|)
      ensures ok ==> pgno > 0 && Own(chain + [pgno]) && |cell'| == |cell| && cell'[..info.nHeader] == cell[..info.nHeader]
      ensures ok ==> OneTaken(old(free.Free()), old(free.nPage), free.Free(), pgno)
      ensures forall q :: q in old(page) && q !in chain && (ok ==> q != pgno) ==> q in page && page[q] == old(page)[q]
    {
      hide Filled, Pages, Chain, Once, InFile, Get4, Put4, Linked, Over, Bytes4, OneTaken, Joined;
      cell' := cell;
      FilledFits(f, page, cell, info.nHeader, info.nLocal, chain, p, w, 0);
      var content;
      ok, pgno, content := NewOverflowPage(cur, chain);
      if !ok { return; }
      PutChunk(content, chunk);
      content := Over(content, 4, chunk);
      FillJoined(f, page, cell, info.nHeader, info.nLocal, chain, p, w, pgno, content, |chunk|);
      if cur == 0 { cell' := Over(cell, info.iOverflow, Bytes4(pgno)); }
      page := Joined(page, cur, pgno, content);
    }

    /** Stores more bytes of the payload in the room left in the cell or page being filled. */
    method FillHere(f: Format, info: CellInfo, cell: seq<byte>, chunk: seq<byte>, left: nat, cur: nat, at: nat,
                    ghost chain: seq<nat>, ghost p: seq<byte>, ghost w: nat)
      returns (cell': seq<byte>)
      requires f.Sane() && f.usable == usable && Filled(f, page, cell, info.nHeader, info.nLocal, chain, p, w, left) && left > 0
      requires cur == LastPage(chain) && (forall i :: 0 <= i < |chain| ==> chain[i] > 0) && at == if cur == 0 then info.nHeader + w else usable - left
      requires 0 < |chunk| <= left && w + |chunk| <= |p| && chunk == p[w..w + |chunk|]
      modifies this`page
      ensures Filled(f, page, cell', info.nHeader, info.nLocal, chain, p, w + |chunk|, left - |chunk|)
      ensures |cell'| == |cell| && info.nHeader <= |cell| && cell'[..info.nHeader] == cell[..info.nHeader]
      ensures page.Keys == old(page).Keys && forall q :: q in page ==> |page[q]| == |old(page)[q]|
      ensures forall q :: q in page && q !in chain ==> page[q] == old(page)[q]
    {
      hide Filled, Over;
      cell' := cell;
      FilledFits(f, page, cell, info.nHeader, info.nLocal, chain, p, w, left);
      if cur == 0 {
        assert chain == [];
        FillCell(f, page, cell, info.nHeader, info.nLocal, p, w, left, |chunk|);
        cell' := Over(cell, at, chunk);
        OverLength(cell, at, chunk);
      } else {
        assert chain[|chain| - 1] in chain;
        FillPage(f, page, cell, info.nHeader, info.nLocal, chain, p, w, left, |chunk|);
        OverLength(page[cur], at, chunk);
        page := page[cur := Over(page[cur], at, chunk)];
      }
    }

    /** The same, with the chain taken so far. */
    method FillFresh(f: Format, info: CellInfo, cell: seq<byte>, chunk: seq<byte>, cur: nat, ghost chain: seq<nat>, ghost p: seq<byte>, ghost w: nat,
                     ghost was: multiset<nat>, ghost end: nat)
      returns (ok: bool, cell': seq<byte>, cur': nat, ghost chain': seq<nat>)
      requires Valid() && f.Sane() && f.usable == usable && Filled(f, page, cell, info.nHeader, info.nLocal, chain, p, w, 0)
      requires cur == LastPage(chain) && Own(chain) && end <= free.nPage && TakenFrom(was, end, free.Free(), chain)
      requires info.iOverflow == info.nHeader + info.nLocal && info.iOverflow + 4 <= |cell|
      requires 0 < |chunk| <= usable - 4 && w + |chunk| <= |p| && chunk == p[w..w + |chunk|]
      modifies this`page, free`nPage, free`head, free`count, free`trunk, free`order
      ensures Valid() && free.nPage >= old(free.nPage) && free.Free() <= old(free.Free())
      ensures !ok ==> free.nPage >= MAX_PAGE
      ensures ok ==> Filled(f, page, cell', info.nHeader, info.nLocal, chain', p, w + |chunk|, usable - 4 - |chunk|)
      ensures ok ==> cur' > 0 && cur' == LastPage(chain') && Own(chain') && |cell'| == |cell| && cell'[..info.nHeader] == cell[..info.nHeader]
      ensures chain <= chain' && if ok then TakenFrom(was, end, free.Free(), chain') else chain' == chain
      ensures forall q :: q in old(page) && q !in chain' ==> q in page && page[q] == old(page)[q]
    {
      hide Filled, Pages, Chain, Once, InFile, TakenFrom, OneTaken;
      chain' := chain;
      ok, cell', cur' := FillNew(f, info, cell, chunk, cur, chain, p, w);
      if ok {
        TakenNext(was, end, old(free.Free()), old(free.nPage), free.Free(), chain, cur');
        chain' := chain + [cur'];
      }
    }

    /** Stores more bytes of the payload at `at` in the cell or page being filled, or on a new page if that is full. */
    method FillSome(f: Format, info: CellInfo, cell: seq<byte>, chunk: seq<byte>, left: nat, cur: nat, at: nat,
                    ghost chain: seq<nat>, ghost p: seq<byte>, ghost w: nat, ghost was: multiset<nat>, ghost end: nat)
      returns (ok: bool, cell': seq<byte>, cur': nat, ghost chain': seq<nat>)
      requires InDomain(free.order, free.trunk) && end <= free.nPage && TakenFrom(was, end, free.Free(), chain)
      requires Valid() && f.Sane() && f.usable == usable && Filled(f, page, cell, info.nHeader, info.nLocal, chain, p, w, left)
      requires cur == LastPage(chain) && Own(chain) && (left > 0 ==> at == if cur == 0 then info.nHeader + w else usable - left)
      requires info.nLocal < |p| ==> info.iOverflow == info.nHeader + info.nLocal && info.iOverflow + 4 <= |cell|
      requires 0 < |chunk| <= (if left > 0 then left else usable - 4) && w + |chunk| <= |p| && chunk == p[w..w + |chunk|]
      modifies this`page, free`nPage, free`head, free`count, free`trunk, free`order
      ensures Valid() && free.nPage >= old(free.nPage) && free.Free() <= old(free.Free())
      ensures !ok ==> free.nPage >= MAX_PAGE
      ensures ok ==> Filled(f, page, cell', info.nHeader, info.nLocal, chain', p, w + |chunk|, (if left > 0 then left else usable - 4) - |chunk|)
      ensures ok ==> cur' == LastPage(chain') && Own(chain') && |cell'| == |cell| && cell'[..info.nHeader] == cell[..info.nHeader]
      ensures chain <= chain' && (ok && left == 0 ==> cur' > 0) && (left > 0 ==> cur' == cur)
      ensures if ok then TakenFrom(was, end, free.Free(), chain') else chain' == chain
      ensures forall q :: q in old(page) && q !in chain' ==> q in page && page[q] == old(page)[q]
    {
      hide Filled, Pages, Chain, Once, InFile, Get4, Put4, TakenFrom, OneTaken, Over;
      chain' := chain;
      if left > 0 {
        cell' := FillHere(f, info, cell, chunk, left, cur, at, chain, p, w);
        return true, cell', cur, chain';
      }
      FilledFits(f, page, cell, info.nHeader, info.nLocal, chain, p, w, left);
      ok, cell', cur', chain' := FillFresh(f, info, cell, chunk, cur, chain, p, w, was, end);
    }

    /** Where filling stands: nPayload bytes are still to come, the next at `at` in page cur, or in the cell if cur is 0. */
    ghost predicate Going(f: Format, info: CellInfo, cell: seq<byte>, cell0: seq<byte>, chain: seq<nat>, p: seq<byte>, nPayload: nat,
                          left: nat, cur: nat, at: nat)
      reads this, free
      requires InDomain(free.order, free.trunk) && f.Sane()
    {
      && nPayload <= |p| && Filled(f, page, cell, info.nHeader, info.nLocal, chain, p, |p| - nPayload, left)
      && cur == LastPage(chain) && Own(chain) && (left > 0 ==> at == if cur == 0 then info.nHeader + |p| - nPayload else usable - left)
      && |cell| == |cell0| && info.nHeader <= |cell| && cell[..info.nHeader] == cell0[..info.nHeader]
    }

    /** Copies as much as the source, the room and the payload allow in one go. */
    method FillStep(f: Format, info: CellInfo, cell: seq<byte>, src: seq<byte>, nSrc: nat, nPayload: nat, left: nat, cur: nat, at: nat,
                    ghost cell0: seq<byte>, ghost chain: seq<nat>, ghost p: seq<byte>, ghost was: multiset<nat>, ghost end: nat)
      returns (ok: bool, cell': seq<byte>, n: nat, left': nat, cur': nat, at': nat, ghost chain': seq<nat>)
      requires Valid() && f.Sane() && f.usable == usable && src <= p && forall i :: |src| <= i < |p| ==> p[i] == 0
      requires info.nLocal < |p| ==> info.iOverflow == info.nHeader + info.nLocal && info.iOverflow + 4 <= |cell|
      requires 0 < nPayload <= |p| && nSrc == if |p| - nPayload <= |src| then |src| - (|p| - nPayload) else 0
      requires Going(f, info, cell, cell0, chain, p, nPayload, left, cur, at) && end <= free.nPage && TakenFrom(was, end, free.Free(), chain)
      modifies this`page, free`nPage, free`head, free`count, free`trunk, free`order
      ensures Valid() && free.nPage >= old(free.nPage) && free.Free() <= old(free.Free())
      ensures !ok ==> free.nPage >= MAX_PAGE
      ensures ok ==> 0 < n <= nPayload && (nSrc > 0 ==> n <= nSrc) && Going(f, info, cell', cell0, chain', p, nPayload - n, left', cur', at')
      ensures if ok then TakenFrom(was, end, free.Free(), chain') else chain' == chain
      ensures chain <= chain' && forall q :: q in old(page) && q !in chain' ==> q in page && page[q] == old(page)[q]
    {
      hide Filled, Pages, Chain, Once, InFile, Zeros, TakenFrom;
      var room: nat := if left == 0 then usable - 4 else left;
      n := if nPayload > room then room else nPayload;
      if nSrc > 0 && n > nSrc { n := nSrc; }
      ChunkIs(p, src, |p| - nPayload, n, nSrc);
      var chunk := if nSrc > 0 then src[|src| - nSrc..|src| - nSrc + n] else Zeros(n);
      at' := if left == 0 then 4 else at;
      ok, cell', cur', chain' := FillSome(f, info, cell, chunk, left, cur, at', chain, p, |p| - nPayload, was, end);
      at', left' := at' + n, room - n;
    }

    /** Copies the payload, src and then zeros, to the cell and as many overflow pages as it needs. */
    method FillPayload(f: Format, info: CellInfo, cell0: seq<byte>, src: seq<byte>, size: nat, ghost p: seq<byte>)
      returns (ok: bool, cell: seq<byte>, ghost chain: seq<nat>, ghost rest: nat)
      requires Valid() && f.Sane() && f.usable == usable && size == |p| && src <= p && forall i :: |src| <= i < |p| ==> p[i] == 0
      requires info.nLocal <= |p| && info.nHeader + info.nLocal <= |cell0|
      requires info.nLocal < |p| ==> info.iOverflow == info.nHeader + info.nLocal && info.iOverflow + 4 <= |cell0|
      modifies this`page, free`nPage, free`head, free`count, free`trunk, free`order
      ensures Valid() && free.nPage >= old(free.nPage) && free.Free() <= old(free.Free())
      ensures !ok ==> free.nPage >= MAX_PAGE
      ensures ok ==> Filled(f, page, cell, info.nHeader, info.nLocal, chain, p, |p|, rest) && Own(chain)
      ensures ok ==> |cell| == |cell0| && cell[..info.nHeader] == cell0[..info.nHeader]
      ensures ok ==> TakenFrom(old(free.Free()), old(free.nPage), free.Free(), chain)
      ensures UseKept(old(free.Free()), old(free.nPage), old(page), page)
    {
      hide Filled, Pages, Chain, Once, InFile, TakenFrom, UseKept;
      ghost var was, taken := free.Free(), free.Free();
      NoneTaken(was, free.nPage);
      cell, chain, ok, rest := cell0, [], true, 0;
      StartFill(f, page, cell, info.nHeader, info.nLocal, p);
      var nPayload: nat, nSrc: nat, cur: nat, left: nat, at: nat := size, |src|, 0, info.nLocal, info.nHeader;
      while nPayload > 0
        invariant Valid() && free.nPage >= old(free.nPage) && free.Free() <= old(free.Free())
        invariant Going(f, info, cell, cell0, chain, p, nPayload, left, cur, at)
        invariant nSrc == if |p| - nPayload <= |src| then |src| - (|p| - nPayload) else 0
        invariant TakenFrom(was, old(free.nPage), free.Free(), chain)
        invariant forall q :: q in old(page) && q !in chain ==> q in page && page[q] == old(page)[q]
      {
        var n;
        taken := free.Free();
        ok, cell, n, left, cur, at, chain := FillStep(f, info, cell, src, nSrc, nPayload, left, cur, at, cell0, chain, p, was, old(free.nPage));
        if !ok {
          OthersKept(was, old(free.nPage), taken, chain, old(page), page);
          return;
        }
        nPayload := nPayload - n;
        nSrc := if nSrc > 0 then nSrc - n else 0;
      }
      OthersKept(was, old(free.nPage), free.Free(), chain, old(page), page);
      rest := left;
    }

    /** Makes the cell for an entry, and the chain of overflow pages it needs.  Fails only when page numbers run out. */
    method FillInCell(f: Format, left4: seq<byte>, nKey: nat, key: seq<byte>, data: seq<byte>, nZero: nat)
      returns (ok: bool, cell: seq<byte>, ghost chain: seq<nat>)
      requires Valid() && f.usable == usable
      requires GoodEntry(f, left4, if f.intKey then |data| + nZero else |key|, nKey)
      modifies this`page, free`nPage, free`head, free`count, free`trunk, free`order
      ensures Valid() && free.nPage >= old(free.nPage) && free.Free() <= old(free.Free())
      ensures !ok ==> free.nPage >= MAX_PAGE
      ensures ok ==> IsCell(f, cell) && ParseCell(f, cell).nKey == nKey && left4 <= cell
      ensures ok ==> CellHolds(f, page, cell, chain, if f.intKey then data + Zeros(nZero) else key) && Own(chain)
      ensures ok ==> TakenFrom(old(free.Free()), old(free.nPage), free.Free(), chain)
      ensures ok ==> Divided(f, if f.intKey then |data| + nZero else |key|, ParseCell(f, cell).nLocal)
      ensures UseKept(old(free.Free()), old(free.nPage), old(page), page)
    {
      hide Filled, Pages, HeaderOf, ParseCell, IsCell, CellHolds, PutVarint, TakenFrom, UseKept, Divided;
      ghost var p := if f.intKey then data + Zeros(nZero) else key;
      var nPayload := if f.intKey then |data| + nZero else |key|;
      var header := HeaderOf(f, left4, nPayload, nKey);
      var info := ParseCell(f, header);
      InfoFits(f, left4, nPayload, nKey);
      cell := header + Zeros(info.nSize - |header|);
      ghost var left;
      ok, cell, chain, left := FillPayload(f, info, cell, if f.intKey then data else key, nPayload, p);
      if ok {
        FillDone(f, left4, nKey, page, cell, chain, p, left);
        HeaderStarts(f, left4, |p|, nKey);
        CellDivides(f, page, cell, chain, p);
      }
    }

    /** Where an access to a chain stands: `left` bytes are still to do, the next `off` bytes into page iIdx of the chain. */
    ghost predicate Accessing(chain: seq<nat>, bytes: seq<byte>, pos: nat, amt: nat, pBuf: seq<byte>, eOp: bool,
                              left: nat, off: nat, iIdx: nat, nextPage: nat, buf: seq<byte>, aOverflow: seq<nat>)
      reads this
      requires usable > 4 && pos + amt <= |bytes| && (eOp ==> |pBuf| == amt)
    {
      && left <= amt && iIdx <= |chain| && nextPage == ChainAt(chain, iIdx) && CacheOk(aOverflow, chain)
      && (left > 0 ==> pos + amt - left == Pos(iIdx, usable - 4) + off)
      && ChainOk(page, chain, usable - 4, Done(bytes, pos, pBuf, eOp, amt - left))
      && (eOp || buf == bytes[pos..pos + (amt - left)])
    }

    /** Reads or writes what lies on the current page. */
    method AccessPage(cur: nat, off: nat, a: nat, left: nat, buf0: seq<byte>, pBuf: seq<byte>, eOp: bool,
                      ghost chain: seq<nat>, ghost bytes: seq<byte>, ghost pos: nat, amt: nat, ghost iIdx: nat, ghost aOverflow: seq<nat>)
      returns (buf: seq<byte>)
      requires Valid() && pos + amt <= |bytes| && (eOp ==> |pBuf| == amt) && cur != 0
      requires Accessing(chain, bytes, pos, amt, pBuf, eOp, left, off, iIdx, cur, buf0, aOverflow)
      requires 0 < a <= left && off + a <= usable - 4 && (a < left ==> off + a == usable - 4)
      modifies this`page
      ensures Valid() && iIdx < |chain| && cur == chain[iIdx]
      ensures Accessing(chain, bytes, pos, amt, pBuf, eOp, left - a, 0, iIdx + 1, ChainAt(chain, iIdx + 1), buf, aOverflow)
      ensures if eOp then page.Keys == old(page).Keys else page == old(page)
      ensures forall q :: q in old(page) && q != cur ==> q in page && page[q] == old(page)[q]
    {
      hide ChainOk, CacheOk, Pos, Over, Done;
      buf := buf0;
      ghost var d: nat := amt - left;
      assert amt - (left - a) == d + a;
      ChainPage(page, chain, usable - 4, Done(bytes, pos, pBuf, eOp, d), iIdx);
      ChunkDone(page, chain, usable - 4, bytes, pos, pBuf, eOp, d, iIdx, off, a);
      NextPos(iIdx, usable - 4);
      if eOp {
        page := page[cur := Over(page[cur], 4 + off, pBuf[amt - left..amt - left + a])];
      } else {
        buf := buf + page[cur][4 + off..4 + off + a];
      }
    }

    /** Nothing of the access lies on the current page. */
    lemma PageSkipped(chain: seq<nat>, bytes: seq<byte>, pos: nat, amt: nat, pBuf: seq<byte>, eOp: bool,
                      left: nat, off: nat, iIdx: nat, cur: nat, buf: seq<byte>, aOverflow: seq<nat>)
      requires usable > 4 && pos + amt <= |bytes| && (eOp ==> |pBuf| == amt) && cur != 0 && 0 < left && usable - 4 <= off
      requires Accessing(chain, bytes, pos, amt, pBuf, eOp, left, off, iIdx, cur, buf, aOverflow)
      ensures iIdx + 1 < |chain|
      ensures Accessing(chain, bytes, pos, amt, pBuf, eOp, left, off - (usable - 4), iIdx + 1, chain[iIdx + 1], buf, aOverflow)
    {
      hide ChainOk, CacheOk, Pos, Over, Done;
      NotLast(page, chain, usable - 4, Done(bytes, pos, pBuf, eOp, amt - left), iIdx, off);
      NextPos(iIdx, usable - 4);
    }

    /** Puts a page of the chain into the cache, if there is one. */
    static method NotePage(a: seq<nat>, iIdx: nat, pgno: nat, ghost cache: seq<nat>, ghost chain: seq<nat>, ghost lo: nat) returns (aOverflow: seq<nat>)
      requires CacheOk(a, chain) && Noted(a, cache, chain, lo, iIdx) && iIdx < |chain| && pgno == chain[iIdx]
      ensures CacheOk(aOverflow, chain) && Noted(aOverflow, cache, chain, lo, iIdx + 1)
    {
      NoteMore(a, cache, chain, lo, iIdx);
      aOverflow := a;
      if |aOverflow| > 0 {
        CacheSet(aOverflow, chain, iIdx);
        aOverflow := aOverflow[iIdx := pgno];
      }
    }

    /** Reads or overwrites amt bytes of a chain, from `offset` on page iStart of it on.  aOverflow caches the page numbers of the
        chain as they become known. */
    method AccessChain(amt: nat, offset: nat, iStart: nat, firstPage: nat, pBuf: seq<byte>, eOp: bool, cache: seq<nat>,
                       ghost chain: seq<nat>, ghost bytes: seq<byte>, ghost pos: nat)
      returns (ok: bool, buf: seq<byte>, aOverflow: seq<nat>, ghost iEnd: nat)
      requires Valid() && ChainOk(page, chain, usable - 4, bytes) && CacheOk(cache, chain)
      requires iStart <= |chain| && firstPage == ChainAt(chain, iStart) && pos == Pos(iStart, usable - 4) + offset && pos + amt <= |bytes|
      requires eOp ==> |pBuf| == amt
      modifies this`page
      ensures ok && Valid() && CacheOk(aOverflow, chain)
      ensures if eOp then ChainOk(page, chain, usable - 4, Over(bytes, pos, pBuf)) else page == old(page) && buf == bytes[pos..pos + amt]
      ensures forall q :: q in old(page) && q !in chain ==> q in page && page[q] == old(page)[q]
      ensures Noted(aOverflow, cache, chain, iStart, iEnd) && (amt > 0 ==> pos + amt <= Pos(iEnd, usable - 4))
    {
      hide ChainOk, CacheOk, Pos, Over, Done, Noted;
      NothingNoted(cache, chain, iStart);
      buf, aOverflow := [], cache;
      var left: nat, off: nat, iIdx, nextPage := amt, offset, iStart, firstPage;
      NothingDone(bytes, pos, pBuf, eOp);
      while left > 0 && nextPage != 0
        invariant Valid() && Accessing(chain, bytes, pos, amt, pBuf, eOp, left, off, iIdx, nextPage, buf, aOverflow)
        invariant eOp || page == old(page)
        invariant forall q :: q in old(page) && q !in chain ==> q in page && page[q] == old(page)[q]
        invariant Noted(aOverflow, cache, chain, iStart, iIdx) && (left == 0 && amt > 0 ==> pos + amt <= Pos(iIdx, usable - 4))
        decreases |chain| - iIdx
      {
        NextPos(iIdx, usable - 4);
        ghost var now := Done(bytes, pos, pBuf, eOp, amt - left);
        ChainPage(page, chain, usable - 4, now, iIdx);
        aOverflow := NotePage(aOverflow, iIdx, nextPage, cache, chain, iStart);
        if off >= usable - 4 {
          PageSkipped(chain, bytes, pos, amt, pBuf, eOp, left, off, iIdx, nextPage, buf, aOverflow);
          if |aOverflow| > 0 && aOverflow[iIdx + 1] != 0 {
            CacheGet(aOverflow, chain, iIdx + 1);
            nextPage := aOverflow[iIdx + 1];
          } else {
            nextPage := Get4(page[nextPage], 0);
          }
          off := off - (usable - 4);
        } else {
          var a: nat := if left + off > usable - 4 then usable - 4 - off else left;
          var next := Get4(page[nextPage], 0);
          buf := AccessPage(nextPage, off, a, left, buf, pBuf, eOp, chain, bytes, pos, amt, iIdx, aOverflow);
          off, left, nextPage := 0, left - a, next;
        }
        iIdx := iIdx + 1;
      }
      AllDone(page, chain, usable - 4, bytes, pos, pBuf, eOp, amt - left, iIdx);
      ok, iEnd := left == 0, iIdx;
    }

    /** Where on the chain the byte pos of what spilled is looked for first: on the page the cache names, or else from the first page on. */
    method FindStart(nSpill: nat, pos: nat, firstPage: nat, isIncrblobHandle: bool, cache: seq<nat>, ghost chain: seq<nat>, ghost bytes: seq<byte>)
      returns (off: nat, iIdx: nat, nextPage: nat, aOverflow: seq<nat>)
      requires usable > 4 && Holds(page, chain, usable - 4, bytes) && CacheOk(cache, chain) && pos < |bytes| == nSpill
      requires chain != [] && firstPage == ChainAt(chain, 0)
      ensures CacheOk(aOverflow, chain) && iIdx <= |chain| && nextPage == ChainAt(chain, iIdx) && pos == Pos(iIdx, usable - 4) + off
      ensures if isIncrblobHandle && cache == [] then |aOverflow| == |chain| else aOverflow == cache
      ensures iIdx == if 0 <= pos / (usable - 4) < |cache| && cache[pos / (usable - 4)] != 0 then pos / (usable - 4) else 0
    {
      hide Holds, Pos, CacheOk;
      off, iIdx, nextPage, aOverflow := pos, 0, firstPage, cache;
      if isIncrblobHandle && aOverflow == [] {
        NewCache(page, chain, usable - 4, bytes);
        aOverflow := seq((nSpill + (usable - 4) - 1) / (usable - 4), _ => 0);
      }
      PageAt(page, chain, usable - 4, bytes, off);
      CacheLength(aOverflow, chain);
      StartPos(usable - 4);
      if aOverflow != [] && aOverflow[off / (usable - 4)] != 0 {
        CacheGet(aOverflow, chain, off / (usable - 4));
        iIdx := off / (usable - 4);
        nextPage := aOverflow[iIdx];
        off := off % (usable - 4);
      }
    }

    /** The part of an access that lies on overflow pages, from byte pos of what spilled on. */
    method AccessSpill(f: Format, info: CellInfo, cell: seq<byte>, pos: nat, left: nat, pBuf: seq<byte>, eOp: bool, isIncrblobHandle: bool,
                       cache: seq<nat>, ghost chain: seq<nat>, ghost p: seq<byte>)
      returns (ok: bool, buf: seq<byte>, aOverflow: seq<nat>)
      requires Valid() && f.Sane() && f.usable == usable && info == ParseCell(f, cell) && CellHolds(f, page, cell, chain, p) && Own(chain)
      requires CacheOk(cache, chain) && (eOp ==> |pBuf| == left) && left > 0 && info.nLocal + pos + left <= |p|
      modifies this`page
      ensures ok && Valid() && CacheOk(aOverflow, chain)
      ensures if eOp then ChainOk(page, chain, usable - 4, Over(p[info.nLocal..], pos, pBuf))
              else page == old(page) && buf == p[info.nLocal..][pos..pos + left]
      ensures forall q :: q in old(page) && q !in chain ==> q in page && page[q] == old(page)[q]
      ensures if isIncrblobHandle || cache != [] then Remembered(aOverflow, cache, chain, usable - 4, pos, pos + left) else aOverflow == []
    {
      hide Noted, Remembered;
      hide ParseCell, Pages, Chain, Once, InFile, Holds, NoPageTwice, Pos, CacheOk, Over, ChainOk, Get4;
      ChainReady(f, page, cell, chain, p);
      SpillFacts(f, page, cell, chain, p);
      var off, iIdx, nextPage;
      off, iIdx, nextPage, aOverflow := FindStart(info.nPayload - info.nLocal, pos, Get4(cell, info.nHeader + info.nLocal), isIncrblobHandle,
                                                  cache, chain, p[info.nLocal..]);
      ghost var known, iStart, iEnd := aOverflow, iIdx, 0;
      ok, buf, aOverflow, iEnd := AccessChain(left, off, iIdx, nextPage, pBuf, eOp, aOverflow, chain, p[info.nLocal..], pos);
      if known != [] { NotedRemembered(aOverflow, known, cache, chain, usable - 4, pos, left, iStart, iEnd); } else { NotedEmpty(aOverflow, known, chain, iStart, iEnd); }
    }

    /** Reads (eOp false) or overwrites (eOp true) amt bytes of the payload of a cell, from `offset` on. */
    method AccessPayload(f: Format, cell: seq<byte>, offset: nat, amt: nat, pBuf: seq<byte>, eOp: bool, isIncrblobHandle: bool, cache: seq<nat>,
                         ghost chain: seq<nat>, ghost p: seq<byte>)
      returns (ok: bool, buf: seq<byte>, cell': seq<byte>, aOverflow: seq<nat>)
      requires Valid() && f.Sane() && f.usable == usable && IsCell(f, cell) && CellHolds(f, page, cell, chain, p) && Own(chain)
      requires CacheOk(cache, chain) && (eOp ==> |pBuf| == amt)
      modifies this`page
      ensures ok <==> offset + amt <= |p|
      ensures Divided(f, |p|, ParseCell(f, cell).nLocal)
      ensures Valid() && CacheOk(aOverflow, chain)
      ensures ok && !eOp ==> buf == p[offset..offset + amt]
      ensures ok && eOp ==> |cell'| == |cell| && CellHolds(f, page, cell', chain, Over(p, offset, pBuf))
      ensures !ok || !eOp ==> page == old(page) && cell' == cell
      ensures var nLocal := ParseCell(f, cell).nLocal;
        if !ok || amt == 0 || offset + amt <= nLocal || (!isIncrblobHandle && cache == []) then aOverflow == cache
        else Remembered(aOverflow, cache, chain, usable - 4, if offset < nLocal then 0 else offset - nLocal, offset + amt - nLocal)
      ensures forall q :: q in old(page) && q !in chain ==> q in page && page[q] == old(page)[q]
    {
      hide ParseCell, IsCell, Pages, Chain, Once, InFile, Holds, NoPageTwice, CacheOk, Over, ChainOk, Divided, Remembered;
      CellDivides(f, page, cell, chain, p);
      var info := ParseCell(f, cell);
      ok, buf, cell', aOverflow := false, [], cell, cache;
      if offset + amt > info.nPayload { return; }
      var off: nat, done: nat := offset, 0;
      if offset < info.nLocal {
        done := if amt + offset > info.nLocal then info.nLocal - offset else amt;
        if eOp {
          cell' := Over(cell, info.nHeader + offset, pBuf[..done]);
        } else {
          buf := cell[info.nHeader + offset..info.nHeader + offset + done];
        }
        off := 0;
      } else {
        off := off - info.nLocal;
      }
      var rest := [];
      ChainReady(f, page, cell, chain, p);
      if amt - done > 0 {
        ok, rest, aOverflow := AccessSpill(f, info, cell, off, amt - done, if eOp then pBuf[done..] else [], eOp, isIncrblobHandle, cache, chain, p);
        if !ok { return; }
      }
      ok := true;
      if eOp {
        Rewritten(f, page, cell, chain, p, offset, pBuf, done, cell');
      } else {
        ReadBack(f, cell, p, offset, amt, done, buf + rest, rest);
      }
      buf := buf + rest;
    }

    /** Frees the overflow pages of a cell. */
    method ClearCell(f: Format, cell: seq<byte>, ghost chain: seq<nat>, ghost p: seq<byte>) returns (ok: bool)
      requires Valid() && f.Sane() && f.usable == usable && CellHolds(f, page, cell, chain, p) && Own(chain)
      modifies free`head, free`count, free`trunk, free`freeType, free`order
      ensures ok && Valid() && free.Free() == old(free.Free()) + multiset(chain)
    {
      hide ParseCell, Pages, Chain, Once, InFile, Holds, NoPageTwice;
      var info := ParseCell(f, cell);
      ok := true;
      ChainReady(f, page, cell, chain, p);
      if info.iOverflow == 0 {
        assert free.Free() + multiset(chain) == free.Free();
        return;
      }
      var ovflPgno := Get4(cell, info.iOverflow);
      var ovflPageSize := usable - 4;
      ChainLength(page, chain, ovflPageSize, p[info.nLocal..]);
      var nOvfl: nat := (info.nPayload - info.nLocal + ovflPageSize - 1) / ovflPageSize;
      ghost var i := 0;
      assert chain[..0] == [];
      while nOvfl > 0
        invariant nOvfl + i == |chain| && ovflPgno == ChainAt(chain, i) && Valid() && free.nPage == old(free.nPage)
        invariant free.Free() == old(free.Free()) + multiset(chain[..i])
      {
        nOvfl := nOvfl - 1;
        if ovflPgno < 2 || ovflPgno > free.nPage { return false; }
        var iNext := 0;
        ChainPage(page, chain, usable - 4, p[info.nLocal..], i);
        if nOvfl > 0 { iNext := Get4(page[ovflPgno], 0); }
        NotYetFreed(chain, old(free.Free()), i);
        ok := free.FreePage2(ovflPgno);
        if !ok { return; }
        assert chain[..i + 1] == chain[..i] + [chain[i]];
        ovflPgno, i := iNext, i + 1;
      }
      assert chain[..i] == chain;
    }

    /** Pages of a chain: in the file and not free. */
    ghost predicate Own(chain: seq<nat>)
      reads this, free
      requires InDomain(free.order, free.trunk)
    {
      forall i :: 0 <= i < |chain| ==> chain[i] !in free.Free() && 2 <= chain[i] <= free.nPage
    }
  }

  lemma CellDivides(f: Format, page: map<nat, seq<byte>>, cell: seq<byte>, chain: seq<nat>, p: seq<byte>)
    requires f.Sane() && CellHolds(f, page, cell, chain, p)
    ensures Divided(f, |p|, ParseCell(f, cell).nLocal)
  {
    hide ParseCell, Holds, Divided;
    ParseDivides(f, cell);
  }

  lemma InfoFits(f: Format, left4: seq<byte>, nPayload: nat, nKey: nat)
    requires GoodEntry(f, left4, nPayload, nKey)
    ensures var h := HeaderOf(f, left4, nPayload, nKey);
            var info := ParseCell(f, h);
      && info.nHeader == |h| && info.nLocal == Local(f, nPayload) <= nPayload && |h| + info.nLocal <= info.nSize
      && (info.nLocal < nPayload ==> info.iOverflow == |h| + info.nLocal && info.iOverflow + 4 <= info.nSize)
  {
    hide ParseCell, HeaderOf;
    var h := HeaderOf(f, left4, nPayload, nKey);
    assert h + [] == h;
    HeaderReads(f, left4, nPayload, nKey, []);
  }

  lemma HeaderStarts(f: Format, left4: seq<byte>, nPayload: nat, nKey: nat)
    requires GoodEntry(f, left4, nPayload, nKey)
    ensures left4 <= HeaderOf(f, left4, nPayload, nKey)
  {
  }

  lemma StartFill(f: Format, page: map<nat, seq<byte>>, cell: seq<byte>, h: nat, nLocal: nat, p: seq<byte>)
    requires f.Sane() && nLocal <= |p| && h + nLocal <= |cell|
    ensures Filled(f, page, cell, h, nLocal, [], p, 0, nLocal)
  {
    assert cell[h..h + 0] == p[..0];
  }

  /** The next bytes come from the source as long as there are any, then they are zeros. */
  lemma ChunkIs(p: seq<byte>, src: seq<byte>, w: nat, n: nat, nSrc: nat)
    requires w + n <= |p| && src <= p && (forall i :: |src| <= i < |p| ==> p[i] == 0)
    requires nSrc == (if w <= |src| then |src| - w else 0) && (nSrc > 0 ==> n <= nSrc)
    ensures (if nSrc > 0 then src[|src| - nSrc..|src| - nSrc + n] else Zeros(n)) == p[w..w + n]
  {
  }

  function LastPage(chain: seq<nat>): nat { if chain == [] then 0 else chain[|chain| - 1] }

  lemma FilledFits(f: Format, page: map<nat, seq<byte>>, cell: seq<byte>, h: nat, nLocal: nat, chain: seq<nat>, p: seq<byte>, w: nat, left: nat)
    requires f.Sane() && Filled(f, page, cell, h, nLocal, chain, p, w, left)
    ensures chain == [] ==> w + left == nLocal <= |p|
    ensures chain != [] ==> nLocal < w <= |p|
    ensures h + nLocal <= |cell|
  {
  }

  lemma PutChunk(content: seq<byte>, chunk: seq<byte>)
    requires |chunk| + 4 <= |content| && Get4(content, 0) == 0
    ensures var c := Over(content, 4, chunk); Get4(c, 0) == 0 && c[4..4 + |chunk|] == chunk
  {
  }

  lemma LinkedIs(page: map<nat, seq<byte>>, l: nat, new_: nat, content: seq<byte>)
    requires l in page && |page[l]| >= 4
    ensures Linked(page, l, new_, content) == page[l := Put4(page[l], 0, new_)][new_ := content]
  {
  }

  // ----- reading and overwriting a chain -----

  ghost predicate ChainOk(page: map<nat, seq<byte>>, chain: seq<nat>, size: nat, bytes: seq<byte>) {
    Holds(page, chain, size, bytes) && NoPageTwice(chain) && forall i :: 0 <= i < |chain| ==> chain[i] > 0
  }

  /** The cache is empty, or knows some pages of the chain. */
  ghost predicate CacheOk(a: seq<nat>, chain: seq<nat>) {
    a == [] || (|a| == |chain| && forall i :: 0 <= i < |a| ==> a[i] == 0 || a[i] == chain[i])
  }

  /** The cache now knows the pages from lo up to hi as well. */
  ghost predicate Noted(a: seq<nat>, cache: seq<nat>, chain: seq<nat>, lo: nat, hi: nat) {
    && lo <= hi <= |chain| && |a| == |cache| && (a != [] ==> |a| == |chain|)
    && forall i: nat :: i < |a| ==> a[i] == if lo <= i < hi then chain[i] else cache[i]
  }

  lemma NothingNoted(cache: seq<nat>, chain: seq<nat>, lo: nat)
    requires CacheOk(cache, chain) && lo <= |chain|
    ensures Noted(cache, cache, chain, lo, lo)
  {
  }

  lemma NoteMore(a: seq<nat>, cache: seq<nat>, chain: seq<nat>, lo: nat, i: nat)
    requires Noted(a, cache, chain, lo, i)
    ensures i < |chain| ==> if a == [] then Noted(a, cache, chain, lo, i + 1) else i < |a| && Noted(a[i := chain[i]], cache, chain, lo, i + 1)
  {
  }

  /** The cache knows every page with one of the bytes lo .. hi - 1 of the chain, and all it knew before. */
  ghost predicate Remembered(a: seq<nat>, cache: seq<nat>, chain: seq<nat>, size: nat, lo: nat, hi: nat) {
    && |a| == |chain|
    && (forall i: nat :: i < |a| && Pos(i, size) < hi && lo < Pos(i, size) + size ==> a[i] == chain[i])
    && forall i: nat :: i < |a| && i < |cache| && cache[i] != 0 ==> a[i] == cache[i]
  }

  lemma {:induction false} PosMono(a: nat, b: nat, size: nat)
    requires a <= b
    ensures Pos(a, size) <= Pos(b, size)
    decreases b
  {
    if a < b { PosMono(a, b - 1, size); }
  }

  lemma NotedRemembered(a: seq<nat>, known: seq<nat>, cache: seq<nat>, chain: seq<nat>, size: nat, pos: nat, left: nat, lo: nat, hi: nat)
    requires Noted(a, known, chain, lo, hi) && CacheOk(known, chain) && known != [] && (cache == [] || known == cache)
    requires Pos(lo, size) <= pos && pos + left <= Pos(hi, size)
    ensures Remembered(a, cache, chain, size, pos, pos + left)
  {
    hide Pos;
    forall i: nat | i < |a| && Pos(i, size) < pos + left && pos < Pos(i, size) + size ensures a[i] == chain[i] {
      if hi <= i { PosMono(hi, i, size); }
      if i < lo { NextPos(i, size); PosMono(i + 1, lo, size); }
    }
  }

  lemma NotedEmpty(a: seq<nat>, known: seq<nat>, chain: seq<nat>, lo: nat, hi: nat)
    requires Noted(a, known, chain, lo, hi) && known == []
    ensures a == []
  {
  }

  function ChainAt(chain: seq<nat>, i: nat): nat { if i < |chain| then chain[i] else 0 }

  /** The bytes once d bytes of the buffer have been written. */
  function Done(bytes: seq<byte>, pos: nat, pBuf: seq<byte>, eOp: bool, d: nat): (r: seq<byte>)
    requires eOp ==> d <= |pBuf| && pos + |pBuf| <= |bytes|
    ensures |r| == |bytes|
  {
    if eOp then Over(bytes, pos, pBuf[..d]) else bytes
  }

  lemma NothingDone(bytes: seq<byte>, pos: nat, pBuf: seq<byte>, eOp: bool)
    requires pos <= |bytes| && (eOp ==> pos + |pBuf| <= |bytes|)
    ensures Done(bytes, pos, pBuf, eOp, 0) == bytes
    ensures bytes[pos..pos + 0] == []
  {
  }

  lemma ChainPage(page: map<nat, seq<byte>>, chain: seq<nat>, size: nat, bytes: seq<byte>, i: nat)
    requires ChainOk(page, chain, size, bytes) && ChainAt(chain, i) != 0
    ensures i < |chain| && chain[i] in page && |page[chain[i]]| >= size + 4 && Get4(page[chain[i]], 0) == ChainAt(chain, i + 1)
  {
    PageOfChain(page, chain, size, bytes, i);
  }

  lemma CacheSet(a: seq<nat>, chain: seq<nat>, i: nat)
    requires CacheOk(a, chain) && a != [] && i < |chain|
    ensures i < |a| == |chain| && CacheOk(a[i := chain[i]], chain)
  {
  }

  lemma CacheGet(a: seq<nat>, chain: seq<nat>, i: nat)
    requires CacheOk(a, chain) && i < |a| && a[i] != 0
    ensures i < |chain| && a[i] == chain[i]
  {
  }

  lemma NextPos(i: nat, size: nat)
    ensures Pos(i + 1, size) == size + Pos(i, size)
  {
  }

  lemma NotLast(page: map<nat, seq<byte>>, chain: seq<nat>, size: nat, bytes: seq<byte>, i: nat, off: nat)
    requires ChainOk(page, chain, size, bytes) && i < |chain| && off >= size && Pos(i, size) + off < |bytes|
    ensures i + 1 < |chain|
  {
    PageOfChain(page, chain, size, bytes, i);
    NextPos(i, size);
  }

  /** A run of bytes on one page, read or written. */
  lemma ChunkDone(page: map<nat, seq<byte>>, chain: seq<nat>, size: nat, bytes: seq<byte>, pos: nat, pBuf: seq<byte>, eOp: bool, d: nat,
                  i: nat, off: nat, a: nat)
    requires eOp ==> d + a <= |pBuf| && pos + |pBuf| <= |bytes|
    requires ChainOk(page, chain, size, Done(bytes, pos, pBuf, eOp, d)) && i < |chain| && pos + d == Pos(i, size) + off
    requires off + a <= size && pos + d + a <= |bytes|
    ensures chain[i] in page && 4 + off + a <= |page[chain[i]]|
    ensures if eOp then ChainOk(page[chain[i] := Over(page[chain[i]], 4 + off, pBuf[d..d + a])], chain, size, Done(bytes, pos, pBuf, eOp, d + a))
            else bytes[pos..pos + d] + page[chain[i]][4 + off..4 + off + a] == bytes[pos..pos + d + a]
    ensures !eOp ==> Done(bytes, pos, pBuf, eOp, d + a) == Done(bytes, pos, pBuf, eOp, d)
  {
    hide Over, Pos, ChainOk;
    if eOp {
      ChunkWritten(page, chain, size, Done(bytes, pos, pBuf, eOp, d), i, off, pBuf[d..d + a]);
      OverMore(bytes, pos, pBuf, d, a);
    } else {
      ChunkRead(page, chain, size, bytes, i, off, a);
      NextSlice(bytes, pos, pos + d, a);
    }
  }

  lemma ChunkWritten(page: map<nat, seq<byte>>, chain: seq<nat>, size: nat, bytes: seq<byte>, i: nat, off: nat, s: seq<byte>)
    requires ChainOk(page, chain, size, bytes) && i < |chain| && off + |s| <= size && Pos(i, size) + off + |s| <= |bytes|
    ensures chain[i] in page && 4 + off + |s| <= |page[chain[i]]|
    ensures ChainOk(page[chain[i] := Over(page[chain[i]], 4 + off, s)], chain, size, Over(bytes, Pos(i, size) + off, s))
  {
    hide Over, Pos, Holds;
    HoldsOver(page, chain, size, bytes, i, off, s);
  }

  lemma ChunkRead(page: map<nat, seq<byte>>, chain: seq<nat>, size: nat, bytes: seq<byte>, i: nat, off: nat, a: nat)
    requires ChainOk(page, chain, size, bytes) && i < |chain| && off + a <= size && Pos(i, size) + off + a <= |bytes|
    ensures chain[i] in page && 4 + off + a <= |page[chain[i]]|
    ensures page[chain[i]][4 + off..4 + off + a] == bytes[Pos(i, size) + off..Pos(i, size) + off + a]
  {
    hide Pos, Holds;
    BytesOfChain(page, chain, size, bytes, i, off, a);
  }

  lemma OverMore(bytes: seq<byte>, pos: nat, s: seq<byte>, d: nat, a: nat)
    requires d + a <= |s| && pos + |s| <= |bytes|
    ensures Over(Over(bytes, pos, s[..d]), pos + d, s[d..d + a]) == Over(bytes, pos, s[..d + a])
  {
  }

  /** The loop stops only when all is done. */
  lemma AllDone(page: map<nat, seq<byte>>, chain: seq<nat>, size: nat, bytes: seq<byte>, pos: nat, pBuf: seq<byte>, eOp: bool, d: nat, i: nat)
    requires eOp ==> d <= |pBuf| && pos + |pBuf| <= |bytes|
    requires ChainOk(page, chain, size, Done(bytes, pos, pBuf, eOp, d)) && i <= |chain|
    ensures ChainAt(chain, i) == 0 ==> |bytes| <= Pos(i, size)
    ensures eOp && d == |pBuf| ==> Done(bytes, pos, pBuf, eOp, d) == Over(bytes, pos, pBuf)
  {
    if eOp && d == |pBuf| { assert pBuf[..d] == pBuf; }
    if ChainAt(chain, i) == 0 && chain != [] { PageOfChain(page, chain, size, Done(bytes, pos, pBuf, eOp, d), |chain| - 1); }
  }

  // ----- a cell and its chain -----

  lemma ChainReady(f: Format, page: map<nat, seq<byte>>, cell: seq<byte>, chain: seq<nat>, p: seq<byte>)
    requires f.Sane() && CellHolds(f, page, cell, chain, p) && forall i :: 0 <= i < |chain| ==> chain[i] > 0
    ensures ParseCell(f, cell).nLocal <= |p|
    ensures ChainOk(page, chain, f.usable - 4, p[ParseCell(f, cell).nLocal..])
    ensures ParseCell(f, cell).iOverflow == 0 <==> chain == []
  {
  }

  lemma SpillFacts(f: Format, page: map<nat, seq<byte>>, cell: seq<byte>, chain: seq<nat>, p: seq<byte>)
    requires f.Sane() && CellHolds(f, page, cell, chain, p) && ParseCell(f, cell).nLocal < |p|
    ensures var info := ParseCell(f, cell);
      chain != [] && info.nHeader + info.nLocal + 4 <= |cell| && Get4(cell, info.nHeader + info.nLocal) == ChainAt(chain, 0)
  {
  }

  lemma NewCache(page: map<nat, seq<byte>>, chain: seq<nat>, size: nat, bytes: seq<byte>)
    requires Holds(page, chain, size, bytes) && size > 0
    ensures CacheOk(seq((|bytes| + size - 1) / size, _ => 0), chain)
  {
    ChainLength(page, chain, size, bytes);
  }

  lemma CacheLength(a: seq<nat>, chain: seq<nat>)
    requires CacheOk(a, chain)
    ensures a == [] || |a| == |chain|
  {
  }

  lemma StartPos(size: nat)
    ensures Pos(0, size) == 0
  {
  }

  lemma ReadBack(f: Format, cell: seq<byte>, p: seq<byte>, offset: nat, amt: nat, done: nat, buf: seq<byte>, rest: seq<byte>)
    requires f.Sane() && offset + amt <= |p| && done <= amt
    requires var info := ParseCell(f, cell);
      && info.nLocal <= |p| && info.nHeader + info.nLocal <= |cell| && cell[info.nHeader..info.nHeader + info.nLocal] == p[..info.nLocal]
      && (if offset < info.nLocal then done == Min(amt, info.nLocal - offset) && buf == cell[info.nHeader + offset..info.nHeader + offset + done] + rest
          else done == 0 && buf == [] + rest)
      && (if done < amt then var pos := if offset < info.nLocal then 0 else offset - info.nLocal; rest == p[info.nLocal..][pos..pos + amt - done]
          else rest == [])
    ensures buf == p[offset..offset + amt]
  {
    hide ParseCell;
    var info := ParseCell(f, cell);
    if offset < info.nLocal {
      SliceOfSlice(cell, info.nHeader, info.nHeader + info.nLocal, offset, done);
      SliceOfSlice(p, 0, info.nLocal, offset, done);
      assert p[0..info.nLocal] == p[..info.nLocal];
    }
  }

  /** The payload after a write that starts in the cell and may go on in the chain. */
  lemma Rewritten(f: Format, page: map<nat, seq<byte>>, cell: seq<byte>, chain: seq<nat>, p: seq<byte>, offset: nat, pBuf: seq<byte>, done: nat,
                  cell': seq<byte>)
    requires f.Sane() && IsCell(f, cell) && offset + |pBuf| <= |p| && done <= |pBuf|
    requires var info := ParseCell(f, cell);
      && info.nPayload == |p| && info.nLocal <= |p| && info.nHeader + info.nLocal <= |cell| && cell[info.nHeader..info.nHeader + info.nLocal] == p[..info.nLocal]
      && (if offset < info.nLocal then
            done == Min(|pBuf|, info.nLocal - offset) && cell' == Over(cell, info.nHeader + offset, pBuf[..done])
          else done == 0 && cell' == cell)
      && (chain != [] ==> info.iOverflow == info.nHeader + info.nLocal && info.iOverflow + 4 <= |cell| && Get4(cell, info.iOverflow) == chain[0])
      && ChainOk(page, chain, f.usable - 4,
                 if done < |pBuf| then Over(p[info.nLocal..], if offset < info.nLocal then 0 else offset - info.nLocal, pBuf[done..])
                 else p[info.nLocal..])
    ensures |cell'| == |cell| && CellHolds(f, page, cell', chain, Over(p, offset, pBuf))
  {
    hide ParseCell, IsCell, Holds, Get4, NoPageTwice, Over;
    var info := ParseCell(f, cell);
    var h, k := info.nHeader, info.nLocal;
    OverHalves(p, offset, pBuf, k, done);
    if offset < k {
      var c := pBuf[..done];
      OverSlice(cell, h, h + k, offset, c);
      OverKeeps(cell, h + offset, c, 0, h);
      assert cell'[..h] == cell'[0..h] == cell[0..h] == cell[..h];
      if chain != [] { OverGet4(cell, h + offset, c, h + k); }
    }
    ParsePrefix(f, cell, cell');
  }

  /** A write cut in two at byte k. */
  lemma OverHalves(p: seq<byte>, offset: nat, s: seq<byte>, k: nat, done: nat)
    requires offset + |s| <= |p| && k <= |p| && done == if offset < k then Min(|s|, k - offset) else 0
    ensures Over(p, offset, s)[..k] == if offset < k then Over(p[..k], offset, s[..done]) else p[..k]
    ensures Over(p, offset, s)[k..] == if done < |s| then Over(p[k..], if offset < k then 0 else offset - k, s[done..]) else p[k..]
  {
    if offset < k {
      assert Over(p, offset, s)[..k] == Over(p[..k], offset, s[..done]);
    } else {
      assert Over(p, offset, s)[..k] == p[..k];
    }
    if done < |s| {
      assert Over(p, offset, s)[k..] == Over(p[k..], if offset < k then 0 else offset - k, s[done..]);
    } else {
      assert Over(p, offset, s)[k..] == p[k..];
    }
  }

  lemma OverGet4(c: seq<byte>, a: nat, s: seq<byte>, b: nat)
    requires a + |s| <= b && b + 4 <= |c|
    ensures Get4(Over(c, a, s), b) == Get4(c, b)
  {
  }

  lemma NotYetFreed(chain: seq<nat>, bag: multiset<nat>, i: nat)
    requires NoPageTwice(chain) && i < |chain| && chain[i] !in bag
    ensures chain[i] !in bag + multiset(chain[..i])
  {
    assert chain[i] !in chain[..i];
  }
}
