/** Full auto-vacuum at commit: pages move from the end of the file to free pages nearer its start, until the file can be cut. */
module AutoVacuum {
  import opened Arith
  import opened PtrMap
  import opened Freelist
  import opened PageGraph

  // ----- counting pages -----

  ghost function FreeUpTo(bag: multiset<nat>, n: nat): set<nat> { set p | p in bag && p <= n }

  ghost function UsedAbove(page: map<nat, Content>, n: nat): set<nat> { set p | p in page && p > n }

  ghost function UsedUpTo(page: map<nat, Content>, n: nat): set<nat> { set p | p in page && p <= n }

  lemma {:induction false} CountIs(g: Geometry, n: nat, s: set<nat>)
    requires g.Sane() && forall p :: p in s <==> 1 <= p <= n && g.Usable(p)
    ensures |s| == g.Count(n)
    decreases n
  {
    if n == 0 {
      assert s == {};
    } else {
      CountIs(g, n - 1, s - {n});
      if n in s { assert s == s - {n} + {n}; } else { assert s == s - {n}; }
    }
  }

  lemma {:induction false} BagSize(bag: multiset<nat>, s: set<nat>)
    requires Once(bag) && forall p :: p in s <==> p in bag
    ensures |s| == |bag|
    decreases |s|
  {
    if s == {} {
      assert bag == multiset{};
    } else {
      var p :| p in s;
      BagSize(bag - multiset{p}, s - {p});
      assert bag == (bag - multiset{p}) + multiset{p};
    }
  }

  lemma Parts(a: set<nat>, b: set<nat>, c: set<nat>)
    requires a !! b && a + b == c
    ensures |a| + |b| == |c|
  {
  }

  ghost predicate Partition(g: Geometry, page: map<nat, Content>, bag: multiset<nat>, nOrig: nat)
    requires g.Sane()
  {
    && (forall p :: 1 <= p <= nOrig && g.Usable(p) ==> p in page || p in bag)
    && (forall p :: p in page ==> 1 <= p <= nOrig && g.Usable(p) && p !in bag)
    && (forall p :: p in bag ==> 1 <= p <= nOrig && g.Usable(p))
  }

  /** The usable pages up to n are the pages in use and the free pages up to n. */
  lemma CountParts(g: Geometry, page: map<nat, Content>, bag: multiset<nat>, nOrig: nat, n: nat)
    requires g.Sane() && Partition(g, page, bag, nOrig) && n <= nOrig
    ensures |UsedUpTo(page, n)| + |FreeUpTo(bag, n)| == g.Count(n)
    ensures |UsedUpTo(page, n)| + |UsedAbove(page, n)| == |page.Keys|
  {
    hide Geometry.Usable, Geometry.Count;
    var u, f := UsedUpTo(page, n), FreeUpTo(bag, n);
    CountIs(g, n, u + f);
    Parts(u, f, u + f);
    Parts(u, UsedAbove(page, n), page.Keys);
  }

  /** Where every usable page is in use or free, there are as many free pages up to nFin as there are pages to move. */
  lemma RoomEnough(g: Geometry, page: map<nat, Content>, bag: multiset<nat>, nOrig: nat, nFree: nat, nFin: nat)
    requires g.Sane() && Once(bag) && |bag| == nFree && nFin <= nOrig && g.Count(nFin) + nFree == g.Count(nOrig)
    requires Partition(g, page, bag, nOrig)
    ensures |FreeUpTo(bag, nFin)| == |UsedAbove(page, nFin)| && |page.Keys| == g.Count(nFin)
  {
    hide Geometry.Usable, Geometry.Count;
    CountParts(g, page, bag, nOrig, nFin);
    CountParts(g, page, bag, nOrig, nOrig);
    BagSize(bag, FreeUpTo(bag, nOrig));
    assert UsedAbove(page, nOrig) == {};
  }

  /** Root pages come first in the file, so none has to move. */
  lemma RootsStay(g: Geometry, page: map<nat, Content>, ptr: map<nat, Entry>, r: nat, nFin: nat)
    requires g.Sane() && |page.Keys| == g.Count(nFin) && g.Usable(r)
    requires forall p :: 1 <= p <= r && g.Usable(p) ==> p in page
    ensures r <= nFin
  {
    var first := set p | p in page && 1 <= p <= r && g.Usable(p);
    CountIs(g, r, first);
    SubsetSize(first, page.Keys);
    if r > nFin { CountMonotone(g, nFin, r); }
  }

  /** No page in use lies above `last`; what lies between nFin and `last` is in use or marked free. */
  ghost predicate Dealt(g: Geometry, page: map<nat, Content>, bag: multiset<nat>, freeType: set<nat>, nFin: nat, last: nat)
    requires g.Sane()
  {
    && (forall p :: p in page ==> 1 <= p <= last && g.Usable(p) && p !in bag && p !in freeType)
    && (forall p :: p in bag ==> g.Usable(p))
    && (forall p :: nFin < p <= last && g.Usable(p) && p !in page ==> p in freeType)
  }

  ghost predicate RootsUpTo(page: map<nat, Content>, ptr: map<nat, Entry>, nFin: nat) {
    forall r :: r in page ==> r in ptr && (ptr[r].eType.RootPage? ==> r <= nFin)
  }

  // ----- the database file -----

  class Database {
    const g: Geometry
    const free: FreeList
    var page: map<nat, Content>
    /** The pointer map, but for the pages it calls free. */
    var ptr: map<nat, Entry>

    constructor (geometry: Geometry, list: FreeList, pages: map<nat, Content>, entries: map<nat, Entry>)
      ensures g == geometry && free == list && page == pages && ptr == entries
    {
      g, free, page, ptr := geometry, list, pages, entries;
    }

    /** A well-formed database that can be vacuumed: every usable page is in use or on the free list, and root pages come first. */
    ghost predicate Valid()
      reads this, free
    {
      && free.g == g && free.autoVacuum && free.Valid() && PtrOk(page, ptr)
      && g.Usable(free.nPage)
      && Partition(g, page, free.Free(), free.nPage)
      && (forall p :: p in page ==> p !in free.freeType) && (forall p :: p in free.Free() ==> p in free.freeType)
      && 1 in page && RootsFirst(g, page, ptr)
    }

    /** All pages above `last` have been dealt with. */
    ghost predicate Shrinking(nFin: nat, last: nat)
      reads this, free
    {
      && free.g == g && free.autoVacuum && free.Valid() && PtrOk(page, ptr) && g.Sane()
      && Dealt(g, page, free.Free(), free.freeType, nFin, last) && RootsUpTo(page, ptr, nFin)
      && |FreeUpTo(free.Free(), nFin)| == |UsedAbove(page, nFin)|
    }

    method PtrmapPut(key: nat, eType: PtrType, parent: nat)
      modifies this`ptr, free`freeType
      ensures ptr == old(ptr)[key := Entry(eType, parent)] && free.freeType == old(free.freeType) - {key}
    {
      ptr := ptr[key := Entry(eType, parent)];
      free.freeType := free.freeType - {key};
    }

    /** Writes the entries of all pages that page pgno points to. */
    method SetChildPtrmaps(pgno: nat)
      requires pgno in page && page[pgno].Btree?
      requires forall p, t :: PointsTo(page[pgno], p, t) ==> p !in free.freeType
      requires forall p :: !(p in page[pgno].kids && p in page[pgno].ovfls)
      modifies this`ptr, free`freeType
      ensures Reparented(old(ptr), ptr, page[pgno], pgno) && free.freeType == old(free.freeType)
    {
      var c := page[pgno];
      var i := 0;
      while i < |c.ovfls|
        invariant i <= |c.ovfls| && free.freeType == old(free.freeType)
        invariant forall p :: p in c.ovfls[..i] ==> p in ptr && ptr[p] == Entry(Overflow1, pgno)
        invariant forall p :: p !in c.ovfls[..i] ==> (p in ptr <==> p in old(ptr)) && (p in ptr ==> ptr[p] == old(ptr)[p])
      {
        assert PointsTo(c, c.ovfls[i], Overflow1);
        PtrmapPut(c.ovfls[i], Overflow1, pgno);
        assert c.ovfls[..i + 1] == c.ovfls[..i] + [c.ovfls[i]];
        i := i + 1;
      }
      assert c.ovfls[..i] == c.ovfls;
      ghost var mid := ptr;
      i := 0;
      while i < |c.kids|
        invariant i <= |c.kids| && free.freeType == old(free.freeType)
        invariant forall p :: p in c.kids[..i] ==> p in ptr && ptr[p] == Entry(BtreePage, pgno)
        invariant forall p :: p !in c.kids[..i] ==> (p in ptr <==> p in mid) && (p in ptr ==> ptr[p] == mid[p])
      {
        assert PointsTo(c, c.kids[i], BtreePage);
        PtrmapPut(c.kids[i], BtreePage, pgno);
        assert c.kids[..i + 1] == c.kids[..i] + [c.kids[i]];
        i := i + 1;
      }
      assert c.kids[..i] == c.kids;
      ReparentedBy(old(ptr), mid, ptr, c, pgno);
    }

    /** Redirects the pointer of page q to iFrom. */
    method ModifyPagePointer(q: nat, iFrom: nat, iTo: nat, eType: PtrType) returns (ok: bool, ghost at: nat)
      requires q in page && !eType.RootPage? && PointsTo(page[q], iFrom, eType)
      modifies this`page
      ensures ok
      ensures eType.BtreePage? ==> at < |old(page)[q].kids| && old(page)[q].kids[at] == iFrom
      ensures eType.Overflow1? ==> at < |old(page)[q].ovfls| && old(page)[q].ovfls[at] == iFrom
      ensures page == old(page)[q := Redirected(old(page)[q], iFrom, iTo, eType, at)]
    {
      var c := page[q];
      at := 0;
      if eType.Overflow2? {
        if c.next != iFrom { return false, at; }
        page := page[q := c.(next := iTo)];
      } else {
        var s := if eType.Overflow1? then c.ovfls else c.kids;
        var i := 0;
        while i < |s| && s[i] != iFrom
          invariant i <= |s| && forall j :: 0 <= j < i ==> s[j] != iFrom
        {
          i := i + 1;
        }
        at := i;
        if i == |s| { return false, at; }
        page := page[q := if eType.Overflow1? then c.(ovfls := s[i := iTo]) else c.(kids := s[i := iTo])];
      }
      ok := true;
    }

    /** Writes the entries of the pages that page pgno, of type eType, points to. */
    method Reparent(pgno: nat, eType: PtrType)
      requires pgno in page && (page[pgno].Btree? <==> eType.BtreePage?)
      requires forall p, t :: PointsTo(page[pgno], p, t) ==> p !in free.freeType
      requires page[pgno].Btree? ==> forall p :: !(p in page[pgno].kids && p in page[pgno].ovfls)
      modifies this`ptr, free`freeType
      ensures Reparented(old(ptr), ptr, page[pgno], pgno) && free.freeType == old(free.freeType)
    {
      if eType.BtreePage? {
        SetChildPtrmaps(pgno);
      } else {
        var nextOvfl := page[pgno].next;
        ReparentedNext(ptr, page[pgno], pgno);
        if nextOvfl != 0 {
          assert PointsTo(page[pgno], nextOvfl, Overflow2);
          PtrmapPut(nextOvfl, Overflow2, pgno);
        }
      }
    }

    /** Moves page iDbPage to iFreePage and corrects the pointers to and from it. */
    method RelocatePage(iDbPage: nat, eType: PtrType, iPtrPage: nat, iFreePage: nat) returns (ok: bool)
      requires PtrOk(page, ptr) && iDbPage in page && iFreePage !in page && iFreePage != 0
      requires ptr[iDbPage] == Entry(eType, iPtrPage) && !eType.RootPage?
      requires forall p :: p in page ==> p !in free.freeType
      modifies this`page, this`ptr, free`freeType
      ensures ok && Moves(iDbPage, iFreePage, old(page), old(ptr), page, ptr) && PtrOk(page, ptr)
      ensures free.freeType == old(free.freeType) - {iFreePage}
    {
      hide Moves, Redirected, Reparented, PointsTo;
      ghost var page0, ptr0 := page, ptr;
      ParentFacts(page, ptr, iDbPage, iFreePage);
      page := (page - {iDbPage})[iFreePage := page[iDbPage]];
      hide PtrOk;
      Reparent(iFreePage, eType);
      ghost var ptr1, at := ptr, 0;
      ok, at := ModifyPagePointer(iPtrPage, iDbPage, iFreePage, eType);
      if !ok { return false; }
      PtrmapPut(iFreePage, eType, iPtrPage);
      Relocated(iDbPage, iFreePage, page0, ptr0, at, ptr1);
      MovedOk(iDbPage, iFreePage, page0, ptr0, page, ptr);
    }

    /** Takes pages off the free list until one is among the first nFin. */
    method FreeTarget(nFin: nat, ghost last: nat) returns (ok: bool, iFreePg: nat)
      requires Shrinking(nFin, last) && UsedAbove(page, nFin) != {}
      modifies free`nPage, free`head, free`count, free`trunk, free`order
      ensures ok && iFreePg <= nFin && iFreePg !in page && g.Usable(iFreePg) && free.Valid() && free.nPage == old(free.nPage)
      ensures iFreePg !in free.Free() && free.Free() <= old(free.Free())
      ensures |FreeUpTo(free.Free(), nFin)| + 1 == |UsedAbove(page, nFin)|
    {
      hide PtrOk, Pages;
      iFreePg := 0;
      while true
        invariant free.Valid() && free.nPage == old(free.nPage) && free.Free() <= old(free.Free())
        invariant |FreeUpTo(free.Free(), nFin)| == |UsedAbove(page, nFin)|
        decreases free.count
      {
        ghost var before := free.Free();
        SomeFree(before, nFin);
        ok, iFreePg := free.AllocateBtreePage(0, Any);
        if !ok { return false, iFreePg; }
        TakenOff(before, free.Free(), iFreePg, nFin);
        if iFreePg <= nFin { break; }
      }
    }

    /** Moves the last page to a free page among the first nFin. */
    method MoveLast(nFin: nat, iLastPg: nat) returns (ok: bool, iFreePg: nat)
      requires Shrinking(nFin, iLastPg) && iLastPg > nFin && iLastPg in page
      modifies this`page, this`ptr, free`freeType, free`nPage, free`head, free`count, free`trunk, free`order
      ensures ok && Shrinking(nFin, iLastPg - 1) && free.nPage == old(free.nPage) && free.Free() <= old(free.Free())
      ensures iFreePg !in old(page) && Moves(iLastPg, iFreePg, old(page), old(ptr), page, ptr)
    {
      hide PtrOk, Pages, Moves, Dealt, RootsUpTo, UsedAbove, FreeUpTo;
      LastPage(g, page, ptr, free.Free(), free.freeType, nFin, iLastPg);
      var e := ptr[iLastPg];
      iFreePg := 0;
      if e.eType.RootPage? { return false, iFreePg; }
      ghost var before := free.Free();
      ok, iFreePg := FreeTarget(nFin, iLastPg);
      if !ok { return false, iFreePg; }
      ghost var page0, ptr0, types0 := page, ptr, free.freeType;
      EntryOf(page0, ptr0, iLastPg);
      ok := RelocatePage(iLastPg, e.eType, e.parent, iFreePg);
      MovedKeys(iLastPg, iFreePg, page0, ptr0, page, ptr);
      MovedCount(page0, page, iLastPg, iFreePg, nFin);
      MovedRoots(iLastPg, iFreePg, page0, ptr0, page, ptr, nFin);
      MovedDealt(g, page0, page, before, free.Free(), types0, nFin, iLastPg, iFreePg);
    }

    /** One step for page iLastPg, at the end of what is left of the file. */
    method VacuumStep(nFin: nat, iLastPg: nat) returns (ok: bool, done: bool, ghost moved: bool, ghost target: nat)
      requires Shrinking(nFin, iLastPg) && iLastPg > nFin
      modifies this`page, this`ptr, free`freeType, free`nPage, free`head, free`count, free`trunk, free`order
      ensures ok && Shrinking(nFin, if done then iLastPg else iLastPg - 1)
      ensures free.nPage == old(free.nPage) && free.Free() <= old(free.Free())
      ensures done <==> !g.IsMap(iLastPg) && iLastPg != g.pending && old(free.count) == 0
      ensures done ==> UsedAbove(page, nFin) == {}
      ensures !done ==> (moved <==> iLastPg in old(page))
      ensures if moved then target !in old(page) && iLastPg in old(page) && Moves(iLastPg, target, old(page), old(ptr), page, ptr)
              else page == old(page) && ptr == old(ptr)
    {
      hide PtrOk, Pages, Moves, RootsUpTo, UsedAbove, FreeUpTo;
      moved, target, done, ok := false, 0, false, true;
      if !g.IsMap(iLastPg) && iLastPg != g.pending {
        if free.count == 0 {
          NoneFree(free.Free(), page, nFin);
          done := true;
          return;
        }
        if iLastPg !in free.freeType {
          hide Dealt;
          InUse(g, page, free.Free(), free.freeType, nFin, iLastPg);
          moved := true;
          ok, target := MoveLast(nFin, iLastPg);
        }
      }
    }

    /** Steps from the end of the file down to nFin, or until no free page is left. */
    method VacuumLoop(nFin: nat, nOrig: nat) returns (ok: bool, ghost ren: map<nat, nat>)
      requires Shrinking(nFin, nOrig) && nFin <= nOrig == free.nPage && |page.Keys| == g.Count(nFin)
      requires RootsFixed(page, ptr, map p | p in page :: p)
      modifies this`page, this`ptr, free`freeType, free`nPage, free`head, free`count, free`trunk, free`order
      ensures ok && free.nPage == nOrig && free.Valid() && PtrOk(page, ptr) && free.Free() <= old(free.Free())
      ensures Same(old(page), page, ren) && RootsFixed(old(page), old(ptr), ren)
      ensures forall p :: p in page <==> 1 <= p <= nFin && g.Usable(p)
    {
      hide PtrOk, Pages, Moves, Dealt, RootsUpTo, UsedAbove, FreeUpTo, Same, RootsFixed, Geometry.Usable, Geometry.Count;
      ghost var page0, ptr0 := page, ptr;
      SameSelf(page, ptr);
      ren := map p | p in page :: p;
      var iFree, done := nOrig, false;
      while iFree > nFin && !done
        invariant nFin <= iFree && free.nPage == nOrig && Shrinking(nFin, iFree) && free.Free() <= old(free.Free())
        invariant done ==> UsedAbove(page, nFin) == {}
        invariant Same(page0, page, ren) && |page.Keys| == g.Count(nFin)
        invariant RootsFixed(page0, ptr0, ren) && RootsUpTo(page0, ptr0, nFin)
        decreases iFree - nFin, !done
      {
        ghost var page1, ptr1 := page, ptr;
        ghost var moved, target;
        ok, done, moved, target := VacuumStep(nFin, iFree);
        if !ok { return; }
        if moved {
          EntryOf(page1, ptr1, iFree);
          SameThen(page0, page1, ren, iFree, target, ptr1, page, ptr);
          FixedThen(page0, ptr0, ren, iFree, target, nFin);
          MovedKeys(iFree, target, page1, ptr1, page, ptr);
          ren := Then(ren, iFree, target);
        }
        if !done { iFree := iFree - 1; }
      }
      AllUsed(g, page, free.Free(), free.freeType, nFin, iFree);
      ok := true;
    }

    /** Vacuums the whole file before a commit.  ren says where each page has gone. */
    method AutoVacuumCommit() returns (ok: bool, ghost ren: map<nat, nat>)
      requires Valid()
      modifies this`page, this`ptr, free`freeType, free`nPage, free`head, free`count, free`trunk, free`order
      ensures ok && PtrOk(page, ptr) && Same(old(page), page, ren) && RootsFixed(old(page), old(ptr), ren)
      ensures free.Valid() && free.Free() == multiset{} && free.nPage <= old(free.nPage) && g.Usable(free.nPage)
      ensures forall p :: p in page <==> 1 <= p <= free.nPage && g.Usable(p)
    {
      hide PtrOk, Pages, Dealt, RootsUpTo, UsedAbove, FreeUpTo, Same, RootsFixed, Partition, RootsFirst, Geometry.MapOf, Geometry.Count;
      var nOrig, nFree := free.nPage, free.count;
      ok, ren := false, map[];
      if g.IsMap(nOrig) || nOrig == g.pending { return; }
      NotAllFree(g, page, free.Free(), nOrig, nFree);
      var nFin := FinalDbSize(g, nOrig, nFree);
      if nFin > nOrig { return; }
      StartShrinking(g, page, ptr, free.Free(), free.freeType, nOrig, nFree, nFin);
      if nFree == 0 { NothingFree(g, nOrig, nFin, free.Free()); }
      ok, ren := VacuumLoop(nFin, nOrig);
      if nFree > 0 { free.Cut(nFin); }
    }
  }

  /** Every usable page before a root page is in use. */
  ghost predicate RootsFirst(g: Geometry, page: map<nat, Content>, ptr: map<nat, Entry>)
    requires g.Sane()
  {
    forall r, p :: r in page && r in ptr && ptr[r].eType.RootPage? && 1 <= p <= r && g.Usable(p) ==> p in page
  }

  /** Root pages keep their numbers. */
  ghost predicate RootsFixed(page: map<nat, Content>, ptr: map<nat, Entry>, ren: map<nat, nat>) {
    forall r :: r in page && r in ptr && ptr[r].eType.RootPage? ==> r in ren && ren[r] == r
  }

  /** Page 1 is in use. */
  lemma NotAllFree(g: Geometry, page: map<nat, Content>, bag: multiset<nat>, nOrig: nat, nFree: nat)
    requires g.Sane() && Partition(g, page, bag, nOrig) && 1 in page && Once(bag) && |bag| == nFree
    ensures nFree < g.Count(nOrig)
  {
    hide Geometry.Usable, Geometry.Count;
    CountParts(g, page, bag, nOrig, nOrig);
    BagSize(bag, FreeUpTo(bag, nOrig));
    assert 1 in UsedUpTo(page, nOrig) by { InPartition(g, page, bag, nOrig, 1); }
  }

  lemma InPartition(g: Geometry, page: map<nat, Content>, bag: multiset<nat>, nOrig: nat, p: nat)
    requires g.Sane() && Partition(g, page, bag, nOrig) && p in page
    ensures 1 <= p <= nOrig && g.Usable(p)
  {
  }

  lemma StartShrinking(g: Geometry, page: map<nat, Content>, ptr: map<nat, Entry>, bag: multiset<nat>, freeType: set<nat>,
                       nOrig: nat, nFree: nat, nFin: nat)
    requires g.Sane() && Partition(g, page, bag, nOrig) && PtrOk(page, ptr) && Once(bag) && |bag| == nFree
    requires nFin <= nOrig && g.Count(nFin) + nFree == g.Count(nOrig) && RootsFirst(g, page, ptr)
    requires (forall p :: p in page ==> p !in freeType) && (forall p :: p in bag ==> p in freeType)
    ensures Dealt(g, page, bag, freeType, nFin, nOrig) && RootsUpTo(page, ptr, nFin)
    ensures |FreeUpTo(bag, nFin)| == |UsedAbove(page, nFin)| && |page.Keys| == g.Count(nFin)
    ensures RootsFixed(page, ptr, map p | p in page :: p)
  {
    hide Geometry.Usable, Geometry.Count;
    RoomEnough(g, page, bag, nOrig, nFree, nFin);
    forall r | r in page ensures r in ptr && (ptr[r].eType.RootPage? ==> r <= nFin) {
      if ptr[r].eType.RootPage? { RootsStay(g, page, ptr, r, nFin); }
    }
  }

  lemma FixedThen(page: map<nat, Content>, ptr: map<nat, Entry>, ren: map<nat, nat>, a: nat, b: nat, nFin: nat)
    requires RootsFixed(page, ptr, ren) && RootsUpTo(page, ptr, nFin) && nFin < a
    ensures RootsFixed(page, ptr, Then(ren, a, b))
  {
  }

  /** Once nothing is left above nFin, every usable page up to nFin is in use. */
  lemma AllUsed(g: Geometry, page: map<nat, Content>, bag: multiset<nat>, freeType: set<nat>, nFin: nat, last: nat)
    requires g.Sane() && Dealt(g, page, bag, freeType, nFin, last) && |page.Keys| == g.Count(nFin)
    requires UsedAbove(page, nFin) == {} || last == nFin
    ensures forall p :: p in page <==> 1 <= p <= nFin && g.Usable(p)
  {
    hide Geometry.Usable, Geometry.Count;
    forall p | p in page ensures p <= nFin { assert p > nFin ==> p in UsedAbove(page, nFin); }
    var all := set p | 1 <= p <= nFin && g.Usable(p);
    CountIs(g, nFin, all);
    SameSize(page.Keys, all);
  }

  lemma SameSize(a: set<nat>, b: set<nat>)
    requires a <= b && |a| == |b|
    ensures a == b
  {
    Parts(a, b - a, b);
  }

  lemma NothingFree(g: Geometry, nOrig: nat, nFin: nat, bag: multiset<nat>)
    requires g.Sane() && g.Usable(nOrig) && g.Usable(nFin) && g.Count(nFin) == g.Count(nOrig) && |bag| == 0
    ensures nFin == nOrig && bag == multiset{}
  {
    CountInjective(g, nFin, nOrig);
  }

  lemma LastPage(g: Geometry, page: map<nat, Content>, ptr: map<nat, Entry>, bag: multiset<nat>, freeType: set<nat>, nFin: nat, last: nat)
    requires g.Sane() && Dealt(g, page, bag, freeType, nFin, last) && RootsUpTo(page, ptr, nFin) && last in page && last > nFin
    ensures last in ptr && !ptr[last].eType.RootPage? && UsedAbove(page, nFin) != {}
    ensures forall p :: p in page ==> p !in freeType
  {
    assert last in UsedAbove(page, nFin);
  }

  lemma InUse(g: Geometry, page: map<nat, Content>, bag: multiset<nat>, freeType: set<nat>, nFin: nat, last: nat)
    requires g.Sane() && Dealt(g, page, bag, freeType, nFin, last) && g.Usable(last) && last > nFin && last !in freeType
    ensures last in page
  {
  }

  lemma MovedKeys(a: nat, b: nat, page: map<nat, Content>, ptr: map<nat, Entry>, page': map<nat, Content>, ptr': map<nat, Entry>)
    requires Moves(a, b, page, ptr, page', ptr')
    ensures page'.Keys == page.Keys - {a} + {b}
  {
  }

  lemma MovedCount(page: map<nat, Content>, page': map<nat, Content>, a: nat, b: nat, nFin: nat)
    requires page'.Keys == page.Keys - {a} + {b} && a in page && b !in page && b <= nFin < a
    ensures |UsedAbove(page', nFin)| + 1 == |UsedAbove(page, nFin)|
  {
    assert UsedAbove(page', nFin) + {a} == UsedAbove(page, nFin);
  }

  lemma MovedRoots(a: nat, b: nat, page: map<nat, Content>, ptr: map<nat, Entry>, page': map<nat, Content>, ptr': map<nat, Entry>, nFin: nat)
    requires Moves(a, b, page, ptr, page', ptr') && RootsUpTo(page, ptr, nFin) && a in page && a in ptr && b !in page && b <= nFin
    ensures RootsUpTo(page', ptr', nFin)
  {
    forall r | r in page' ensures r in ptr' && (ptr'[r].eType.RootPage? ==> r <= nFin) {
      var r0 := if r == b then a else r;
      assert To(a, b, r0) == r;
    }
  }

  lemma MovedDealt(g: Geometry, page: map<nat, Content>, page': map<nat, Content>, bag: multiset<nat>, bag': multiset<nat>, types: set<nat>,
                   nFin: nat, a: nat, b: nat)
    requires g.Sane() && Dealt(g, page, bag, types, nFin, a) && bag' <= bag && b !in bag' && g.Usable(b) && 1 <= b <= nFin < a
    requires page'.Keys == page.Keys - {a} + {b}
    ensures Dealt(g, page', bag', types - {b}, nFin, a - 1)
  {
    hide Geometry.Usable;
    forall p | p in bag' ensures p in bag { assert bag'[p] <= bag[p]; }
  }

  lemma SomeFree(bag: multiset<nat>, nFin: nat)
    requires |FreeUpTo(bag, nFin)| > 0
    ensures |bag| > 0
  {
    var p :| p in FreeUpTo(bag, nFin);
    assert p in bag;
  }

  lemma NoneFree(bag: multiset<nat>, page: map<nat, Content>, nFin: nat)
    requires |bag| == 0 && |FreeUpTo(bag, nFin)| == |UsedAbove(page, nFin)|
    ensures UsedAbove(page, nFin) == {}
  {
    assert FreeUpTo(bag, nFin) == {};
  }

  lemma EntryOf(page: map<nat, Content>, ptr: map<nat, Entry>, p: nat)
    requires PtrOk(page, ptr)
    ensures 0 !in page && (p in page ==> p in ptr)
  {
  }

  lemma TakenOff(before: multiset<nat>, after: multiset<nat>, p: nat, nFin: nat)
    requires after + multiset{p} == before && Once(before)
    ensures after <= before && p in before && p !in after && |after| < |before|
    ensures |FreeUpTo(before, nFin)| == |FreeUpTo(after, nFin)| + if p <= nFin then 1 else 0
  {
    assert before[p] == (after + multiset{p})[p];
    forall q ensures q in before <==> q in after || q == p { assert before[q] == (after + multiset{p})[q]; }
    if p <= nFin {
      assert FreeUpTo(before, nFin) == FreeUpTo(after, nFin) + {p};
    } else {
      assert FreeUpTo(before, nFin) == FreeUpTo(after, nFin);
    }
  }

  lemma ReparentedNext(ptr: map<nat, Entry>, c: Content, q: nat)
    requires c.Overflow?
    ensures Reparented(ptr, if c.next == 0 then ptr else ptr[c.next := Entry(Overflow2, q)], c, q)
  {
    forall p | Avoids(c, p) ensures p != c.next || c.next == 0 { assert !PointsTo(c, p, Overflow2); }
  }

  lemma ReparentedBy(ptr0: map<nat, Entry>, mid: map<nat, Entry>, ptr: map<nat, Entry>, c: Content, q: nat)
    requires c.Btree? && forall p :: !(p in c.kids && p in c.ovfls)
    requires forall p :: p in c.ovfls ==> p in mid && mid[p] == Entry(Overflow1, q)
    requires forall p :: p !in c.ovfls ==> (p in mid <==> p in ptr0) && (p in mid ==> mid[p] == ptr0[p])
    requires forall p :: p in c.kids ==> p in ptr && ptr[p] == Entry(BtreePage, q)
    requires forall p :: p !in c.kids ==> (p in ptr <==> p in mid) && (p in ptr ==> ptr[p] == mid[p])
    ensures Reparented(ptr0, ptr, c, q)
  {
    forall p | Avoids(c, p) ensures p !in c.kids && p !in c.ovfls {
      assert !PointsTo(c, p, BtreePage) && !PointsTo(c, p, Overflow1);
    }
  }

  /** What the pointer map says about a page that can be moved. */
  lemma ParentFacts(page: map<nat, Content>, ptr: map<nat, Entry>, a: nat, b: nat)
    requires PtrOk(page, ptr) && a in page && b !in page && !ptr[a].eType.RootPage?
    ensures var q := ptr[a].parent;
      && q in page && q != a && q != b && PointsTo(page[q], a, ptr[a].eType)
      && (page[a].Btree? <==> ptr[a].eType.BtreePage?)
      && (forall p, t :: PointsTo(page[a], p, t) ==> p in page)
      && (page[a].Btree? ==> forall p :: !(p in page[a].kids && p in page[a].ovfls))
  {
    assert ShapeFits(page[a], ptr[a].eType);
    if page[a].Btree? {
      forall p ensures !(p in page[a].kids && p in page[a].ovfls) {
        if p in page[a].kids && p in page[a].ovfls {
          assert PointsTo(page[a], p, BtreePage) && PointsTo(page[a], p, Overflow1);
          assert false;
        }
      }
    }
  }
}
