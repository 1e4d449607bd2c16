/** Deleting an entry of an interior page: the entry before it, the last on a leaf, moves up to take its place. */
module BtreeDelete {
  import opened BtreeNode
  import opened BtreeShape
  import opened BtreePath
  import opened BtreeRank
  import opened BtreeSeek
  import opened BtreeRebalance
  import opened BtreeBalance
  import opened BtreeAlong
  import opened BtreeStep
  import opened BtreeEdit

  lemma {:induction false} SetAtSplit(n: Node, a: Path, b: Path, m: Node)
    requires ValidPath(n, a + b)
    ensures ValidPath(n, a) && ValidPath(At(n, a), b) && At(n, a + b) == At(At(n, a), b)
    ensures SetAt(n, a + b, m) == SetAt(n, a, SetAt(At(n, a), b, m))
    decreases a
  {
    if a == [] {
      assert a + b == b;
    } else {
      assert (a + b)[1..] == a[1..] + b;
      SetAtSplit(n.kids[a[0]], a[1..], b, m);
    }
  }

  /** A page stays as it was, but for one of its children, when something below it changes. */
  lemma AboveKept(n: Node, a: Path, b: Path, m: Node)
    requires ValidPath(n, a + b) && b != []
    ensures var n' := SetAt(n, a + b, m);
      && ValidPath(n, a) && ValidPath(n', a) && At(n', a) == At(n, a).(kids := At(n', a).kids) && |At(n', a).kids| == |At(n, a).kids|
  {
    SetAtSplit(n, a, b, m);
    SetAtValid(n, a, SetAt(At(n, a), b, m));
  }

  lemma EndMoves(kind: Kind, n: Node, q: Path, b: Path, m: Node)
    requires ValidPath(n, q + b)
    ensures var n' := SetAt(n, q + b, m);
      && ValidPath(n, q) && ValidPath(n', q)
      && EndOf(kind, n', q) == EndOf(kind, n, q) + |Walk(kind, n')| - |Walk(kind, n)|
  {
    hide Walk, PreAt, PostAt;
    SetAtSplit(n, q, b, m);
    var k := SetAt(At(n, q), b, m);
    SetAtAround(kind, n, q, k);
    SetAtValid(n, q, k);
    WalkAt(kind, n, q);
    WalkAt(kind, SetAt(n, q, k), q);
  }

  /** A cell moves along the walk as much as what lies below it shrinks. */
  lemma RankMoves(kind: Kind, n: Node, path: Path, ix: nat, path': Path, m: Node)
    requires ValidPath(n, path') && path + [ix] <= path' && ValidPath(n, path) && Shaped(At(n, path)) && ix <= |At(n, path).cells|
    ensures var n' := SetAt(n, path', m);
      && ValidPath(n', path) && At(n', path) == At(n, path).(kids := At(n', path).kids) && Shaped(At(n', path)) && !At(n', path).leaf
      && Rank(kind, n', path, ix) == Rank(kind, n, path, ix) + |Walk(kind, n')| - |Walk(kind, n)|
  {
    hide Walk, PreAt, PostAt, Rank, EndOf, SetAt, At;
    var q := path + [ix];
    var b := path'[|q|..];
    assert path' == q + b;
    assert path' == path + path'[|path|..];
    AboveKept(n, path, path'[|path|..], m);
    PathPrefix(n, path', |q|);
    assert path'[..|q|] == q;
    PathPush(n, path, ix);
    EndMoves(kind, n, q, b, m);
    Child(kind, n, path, ix);
    Child(kind, SetAt(n, path', m), path, ix);
  }

  lemma PutAcross<T>(w: seq<T>, r: nat)
    requires r + 1 < |w|
    ensures Put(Put(w, r, r + 1, []), r, r + 1, [w[r]]) == Put(w, r + 1, r + 2, [])
  {
  }

  /** The tree once the leaf has lost its last cell. */
  lemma LeafGivesUp(kind: Kind, u: nat, root: Node, h: nat, path: Path, ix: nat, path': Path, ix': nat)
    requires RootOk(kind, u, root, h) && DownBefore(kind, root, path, ix, path', ix')
    ensures At(root, path').nOv == 0
    ensures var rootL := SetAt(root, path', DropCell(At(root, path'), ix'));
      && OkAlong(kind, u, rootL, h, path', -1, true) && PagesOf(rootL) == PagesOf(root)
      && ValidPath(rootL, path') && At(rootL, path').nOv == 0
      && rootL.leaf == root.leaf && rootL.cells == root.cells && rootL.pgno == root.pgno
      && ValidPath(rootL, path) && At(rootL, path) == At(root, path).(kids := At(rootL, path).kids)
      && Shaped(At(rootL, path)) && !At(rootL, path).leaf
  {
    hide Walk, Rank, Edits, RootOk, Sorted, Put, PagesOf, NFree, GoodCells, OkAlong;
    PageOf(kind, u, root, h, path');
    DropEdits(kind, u, At(root, path'), ix', path' == []);
    var m := DropCell(At(root, path'), ix');
    EditedState(kind, u, root, h, path', m);
    RankMoves(kind, root, path, ix, path', m);
    SetAtTop(root, path', m);
  }

  /** The walk once the leaf's last cell has replaced cell ix above it: the old walk without that cell. */
  lemma WalkTakenUp(kind: Kind, root: Node, path: Path, ix: nat, path': Path, ix': nat, rootL: Node, m: Node)
    requires kind.Index? && DownBefore(kind, root, path, ix, path', ix') && At(root, path').nOv == 0 && ix < |At(root, path).cells|
    requires rootL == SetAt(root, path', DropCell(At(root, path'), ix'))
    requires ValidPath(rootL, path) && At(rootL, path) == At(root, path).(kids := At(rootL, path).kids)
    requires Shaped(At(rootL, path)) && !At(rootL, path).leaf
    requires !m.leaf && m.kids == At(rootL, path).kids && m.cells == Put(At(rootL, path).cells, ix, ix + 1, [At(root, path').cells[ix']])
    ensures var r := Rank(kind, root, path, ix);
      r < |Walk(kind, root)| && Walk(kind, root)[r].Ent?
      && Walk(kind, SetAt(rootL, path, m)) == Put(Walk(kind, root), r, r + 1, [])
  {
    hide Walk, Rank, PreAt, SetAt, At;
    var w, r, c := Walk(kind, root), Rank(kind, root, path', ix'), At(root, path').cells[ix'];
    WalkWithout(kind, root, path', ix');
    RankMoves(kind, root, path, ix, path', DropCell(At(root, path'), ix'));
    assert |Put(w, r, r + 1, [])| == |w| - 1;
    RankItem(kind, root, path, ix);
    assert Rank(kind, rootL, path, ix) == r;
    MidPut(kind, rootL, path, m, ix, c);
    PutAcross(w, r);
  }

  /** The bytes a cell from a leaf falls short of the 4 it takes there. */
  function ShortBy(c: Cell): nat { if c.body < 4 then 4 - c.body else 0 }

  /** A cell from a leaf gets the bytes it took there and 4 for the child pointer.  On the interior page it takes less if it is short,
      and what it does not take is lost, unless it is put aside. */
  ghost predicate Lifted(lost: nat, page: Node, c: Cell) {
    && page.lost == lost + (if page.nOv > 0 then 0 else ShortBy(c))
    && (page.lost == 0 <==> lost == 0 && (c.body >= 4 || page.nOv > 0))
  }

  lemma LiftedCell(u: nat, page: Node, ix: nat, c: Cell)
    requires page.nOv == 0 && !page.leaf && ix < |page.cells| && OvflInRange(DropCell(page, ix))
    ensures Lifted(page.lost, InsertCell(u, DropCell(page, ix), ix, c, Size(true, c) + 4), c)
  {
    hide NFree;
  }

  /** The tree ready for balancing from the leaf up. */
  lemma TreeTakenUp(kind: Kind, u: nat, root: Node, h: nat, path: Path, ix: nat, path': Path, ix': nat)
    requires u >= MIN_USABLE && RootOk(kind, u, root, h) && Sorted(Walk(kind, root)) && kind.Index?
    requires DownBefore(kind, root, path, ix, path', ix') && ix < |At(root, path).cells| && !At(root, path).leaf
    requires At(root, path).lost + ShortBy(At(root, path').cells[ix']) <= MayLose(kind, u, false)
    ensures At(root, path').nOv == 0
    ensures var rootL := SetAt(root, path', DropCell(At(root, path'), ix'));
            ValidPath(rootL, path) && ix < |At(rootL, path).cells| && At(rootL, path).nOv == 0 && OvflInRange(DropCell(At(rootL, path), ix))
            && !At(rootL, path).leaf && ShortBy(At(root, path').cells[ix']) <= 3
    ensures var rootL := SetAt(root, path', DropCell(At(root, path'), ix'));
            var c := At(root, path').cells[ix'];
            var m := InsertCell(u, DropCell(At(rootL, path), ix), ix, c, Size(true, c) + 4);
            var root' := SetAt(rootL, path, m);
      && BalanceState(kind, u, root', h, path', |path|) && PagesOf(root') == PagesOf(root) && Sorted(Walk(kind, root'))
      && ValidPath(root', path) && Lifted(At(root, path).lost, At(root', path), c)
      && Rank(kind, root, path, ix) < |Walk(kind, root)|
      && Removed(Entries(Walk(kind, root)), Entries(Walk(kind, root')), |Entries(Walk(kind, root)[..Rank(kind, root, path, ix)])|)
  {
    hide Walk, Rank, Edits, RootOk, Sorted, Put, PagesOf, NFree, GoodCells, OkAlong, Removed, PageFits;
    LeafGivesUp(kind, u, root, h, path, ix, path', ix');
    var rootL := SetAt(root, path', DropCell(At(root, path'), ix'));
    var c := At(root, path').cells[ix'];
    LiftFits(kind, u, root, h, path, ix, path', ix', At(rootL, path));
    var m := InsertCell(u, DropCell(At(rootL, path), ix), ix, c, Size(true, c) + 4);
    WalkTakenUp(kind, root, path, ix, path', ix', rootL, m);
    RemovedInWalk(Walk(kind, root), Rank(kind, root, path, ix));
    SamePages(rootL, path, m);
    LiftState(kind, u, root, rootL, h, path, ix, path', m);
    SetAtValid(rootL, path, m);
    LiftedCell(u, At(rootL, path), ix, c);
  }

  /** The cell taken up fits the interior page, or overflows it alone. */
  lemma LiftFits(kind: Kind, u: nat, root: Node, h: nat, path: Path, ix: nat, path': Path, ix': nat, page: Node)
    requires u >= MIN_USABLE && RootOk(kind, u, root, h) && kind.Index?
    requires DownBefore(kind, root, path, ix, path', ix') && ix < |At(root, path).cells|
    requires page == At(root, path).(kids := page.kids) && Shaped(page) && !page.leaf
    requires page.lost + ShortBy(At(root, path').cells[ix']) <= MayLose(kind, u, false)
    ensures page.nOv == 0 && OvflInRange(DropCell(page, ix))
    ensures var c := At(root, path').cells[ix'];
            var m := InsertCell(u, DropCell(page, ix), ix, c, Size(true, c) + 4);
            Edits(kind, u, page, m, path == []) && m.cells == Put(page.cells, ix, ix + 1, [c]) && (m.nOv == 1 ==> m.ovAt == ix) && ShortBy(c) <= 3
  {
    hide RootOk, GoodCell, NFree, Rank, Put, ForestOk;
    PageOf(kind, u, root, h, path);
    PageOf(kind, u, root, h, path');
    var c := At(root, path').cells[ix'];
    OtherKids(kind, u, At(root, path), page);
    GoodAnywhere(kind, u, c);
    ReplaceEdits(kind, u, page, ix, c, Size(true, c) + 4, path == []);
  }

  lemma OtherKids(kind: Kind, u: nat, page: Node, page': Node)
    requires PageFits(kind, u, page, 0) && page' == page.(kids := page'.kids) && Shaped(page')
    ensures PageFits(kind, u, page', 0)
  {
    assert OnPage(page') == OnPage(page);
  }

  lemma GoodAnywhere(kind: Kind, u: nat, c: Cell)
    requires kind.Index? && GoodCell(kind, u, true, c)
    ensures GoodCell(kind, u, false, c)
    ensures Size(true, c) + 4 == Size(false, c) + ShortBy(c) && ShortBy(c) <= 3
  {
  }

  lemma LiftState(kind: Kind, u: nat, root: Node, rootL: Node, h: nat, path: Path, ix: nat, path': Path, m: Node)
    requires RootOk(kind, u, root, h) && path + [ix] <= path'
    requires OkAlong(kind, u, rootL, h, path', -1, true) && ValidPath(rootL, path)
    requires ValidPath(rootL, path') && At(rootL, path').nOv == 0
    requires rootL.leaf == root.leaf && rootL.cells == root.cells && rootL.pgno == root.pgno
    requires Edits(kind, u, At(rootL, path), m, path == []) && |m.cells| == |At(rootL, path).cells| && ix < |m.cells|
    requires !m.leaf && (m.nOv == 1 ==> m.ovAt == ix)
    ensures BalanceState(kind, u, SetAt(rootL, path, m), h, path', |path|)
  {
    hide PageFits, ForestOk, OthersOk, OkAlong;
    LiftAlong(kind, u, rootL, h, path, ix, path', m);
    LiftBelow(rootL, path, path', m);
    if path != [] { SetAtTop(rootL, path, m); }
  }

  lemma LiftAlong(kind: Kind, u: nat, rootL: Node, h: nat, path: Path, ix: nat, path': Path, m: Node)
    requires OkAlong(kind, u, rootL, h, path', -1, true) && path + [ix] <= path' && ValidPath(rootL, path)
    requires Edits(kind, u, At(rootL, path), m, path == []) && |m.cells| == |At(rootL, path).cells| && ix < |m.cells|
    requires !m.leaf && (m.nOv == 1 ==> m.ovAt == ix)
    ensures OkAlong(kind, u, SetAt(rootL, path, m), h, path', |path|, true) && ValidPath(SetAt(rootL, path, m), path')
  {
    hide ForestOk, OthersOk, NFree, GoodCells, OkAlong;
    assert path'[..|path|] == path && path'[|path|] == ix;
    AlongCell(kind, u, rootL, h, path', true, |path|, m);
    AlongEnd(kind, u, SetAt(rootL, path, m), h, path', |path|, true);
  }

  lemma LiftBelow(rootL: Node, path: Path, path': Path, m: Node)
    requires path < path' && ValidPath(rootL, path') && ValidPath(rootL, path) && m.kids == At(rootL, path).kids
    requires ValidPath(SetAt(rootL, path, m), path')
    ensures At(SetAt(rootL, path, m), path') == At(rootL, path')
  {
    assert path' == path + path'[|path|..];
    SetAtSplit(rootL, path, path'[|path|..], m);
    SetAtValid(rootL, path, m);
    SetAtSplit(SetAt(rootL, path, m), path, path'[|path|..], m);
    BelowSame(At(rootL, path), m, path'[|path|..]);
  }

  lemma BelowSame(p: Node, m: Node, b: Path)
    requires ValidPath(p, b) && ValidPath(m, b) && b != [] && m.kids == p.kids
    ensures At(m, b) == At(p, b)
  {
  }
}
