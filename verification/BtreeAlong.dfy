/** Trees that are sound except along the path from the root to one page. */
module BtreeAlong {
  import opened BtreeNode
  import opened BtreeShape
  import opened BtreePath
  import opened BtreeRebalance

  /** The last page of the path: it may be overfull, underfull or empty. */
  ghost predicate EndOk(kind: Kind, u: nat, n: Node, h: nat, isRoot: bool) {
    && PageFits(kind, u, n, if kind.Table? && n.leaf then 1 else 4) && n.pgno > 0 && (isRoot || n.pgno > 1)
    && (n.leaf <==> h == 0) && (h > 0 ==> ForestOk(kind, u, n.kids, h - 1))
  }

  /** A page above it: sound, except that the page cd levels down may carry one overflow cell, which divides the child
      on the path from the next. */
  ghost predicate MidOk(kind: Kind, u: nat, n: Node, h: nat, i: nat, cd: int, isRoot: bool) {
    && h > 0 && !n.leaf && PageFits(kind, u, n, if cd == 0 then 1 else 0) && n.pgno > 0 && (isRoot || (n.pgno > 1 && n.cells != []))
    && i < |n.kids| == |n.cells| + 1 && (n.nOv == 1 ==> n.ovAt == i < |n.cells| && (1 < |n.cells| || (isRoot && n.pgno == 1)))
    && OthersOk(kind, u, h - 1, n.kids, i)
  }

  ghost predicate OkAlong(kind: Kind, u: nat, n: Node, h: nat, path: Path, cd: int, isRoot: bool)
    decreases path
  {
    if path == [] then EndOk(kind, u, n, h, isRoot)
    else MidOk(kind, u, n, h, path[0], cd, isRoot) && OkAlong(kind, u, n.kids[path[0]], h - 1, path[1..], cd - 1, false)
  }

  lemma {:induction false} AlongEnd(kind: Kind, u: nat, n: Node, h: nat, path: Path, cd: int, isRoot: bool)
    requires OkAlong(kind, u, n, h, path, cd, isRoot)
    ensures ValidPath(n, path) && |path| <= h
    ensures EndOk(kind, u, At(n, path), h - |path|, isRoot && path == [])
    decreases path
  {
    if path != [] { AlongEnd(kind, u, n.kids[path[0]], h - 1, path[1..], cd - 1, false); }
  }

  /** What is known of a page on the path and its child on the path. */
  lemma {:induction false} AlongMid(kind: Kind, u: nat, n: Node, h: nat, path: Path, cd: int, isRoot: bool, d: nat)
    requires OkAlong(kind, u, n, h, path, cd, isRoot) && d < |path|
    ensures ValidPath(n, path[..d]) && d < h
    ensures MidOk(kind, u, At(n, path[..d]), h - d, path[d], cd - d, isRoot && d == 0)
    ensures d + 1 == |path| ==> EndOk(kind, u, At(n, path[..d]).kids[path[d]], h - |path|, false)
    decreases path
  {
    hide PageFits, OthersOk, ForestOk, EndOk;
    if d > 0 {
      AlongMid(kind, u, n.kids[path[0]], h - 1, path[1..], cd - 1, false, d - 1);
      assert path[..d][1..] == path[1..][..d - 1];
    } else if |path| == 1 {
      assert path[1..] == [];
    }
  }

  /** Replacing the page d levels down the path by one that may itself be overfull or empty. */
  lemma {:induction false} AlongReplace(kind: Kind, u: nat, n: Node, h: nat, path: Path, cd: int, isRoot: bool, d: nat, m: Node)
    requires OkAlong(kind, u, n, h, path, cd, isRoot) && 0 < d <= |path| && d <= h
    requires EndOk(kind, u, m, h - d, false)
    ensures ValidPath(n, path[..d])
    ensures OkAlong(kind, u, SetAt(n, path[..d], m), h, path[..d], cd, isRoot)
    decreases path
  {
    hide PageFits, OthersOk, ForestOk, EndOk;
    var i := path[0];
    assert path[..d][0] == i && path[..d][1..] == path[1..][..d - 1];
    if d == 1 {
      SetKidMid(kind, u, n, h, i, cd, isRoot, m);
      assert path[..d][1..] == [];
    } else {
      AlongReplace(kind, u, n.kids[i], h - 1, path[1..], cd - 1, false, d - 1, m);
      SetKidMid(kind, u, n, h, i, cd, isRoot, SetAt(n.kids[i], path[1..][..d - 1], m));
    }
  }

  lemma SetKidMid(kind: Kind, u: nat, n: Node, h: nat, i: nat, cd: int, isRoot: bool, k: Node)
    requires MidOk(kind, u, n, h, i, cd, isRoot)
    ensures MidOk(kind, u, n.(kids := n.kids[i := k]), h, i, cd, isRoot)
  {
    assert OnPage(n.(kids := n.kids[i := k])) == OnPage(n);
  }

  /** With no page carrying an overflow cell, how far above the path that page would lie does not matter. */
  lemma {:induction false} AlongNegative(kind: Kind, u: nat, n: Node, h: nat, path: Path, c: int, c': int)
    requires OkAlong(kind, u, n, h, path, c, false) && c < 0 && c' < 0
    ensures OkAlong(kind, u, n, h, path, c', false)
    decreases path
  {
    if path != [] { AlongNegative(kind, u, n.kids[path[0]], h - 1, path[1..], c - 1, c' - 1); }
  }

  /** Once the last page is in order, all is, but for the page cd levels down. */
  lemma {:induction false} AlongDone(kind: Kind, u: nat, n: Node, h: nat, path: Path, cd: int, isRoot: bool)
    requires OkAlong(kind, u, n, h, path, cd, isRoot)
    requires ValidPath(n, path) && At(n, path).nOv == 0 && (path != [] || !isRoot ==> At(n, path).cells != [])
    ensures cd < 0 || cd >= |path| ==> if isRoot then EndOk(kind, u, n, h, true) && n.nOv == 0 else TreeOk(kind, u, n, h)
    ensures 0 <= cd < |path| ==> OkAlong(kind, u, n, h, path[..cd], -1, isRoot)
    decreases path
  {
    if path == [] {
    } else {
      hide OthersOk, NFree, OnPage, GoodCells;
      var k := n.kids[path[0]];
      AlongDone(kind, u, k, h - 1, path[1..], cd - 1, false);
      if cd != 0 && 0 < cd < |path| {
        assert path[..cd][1..] == path[1..][..cd - 1];
        AlongMidOther(kind, u, n, h, path[0], cd, isRoot);
        AlongNegative(kind, u, k, h - 1, path[..cd][1..], -1, -2);
      }
    }
  }

  lemma AlongMidOther(kind: Kind, u: nat, n: Node, h: nat, i: nat, cd: int, isRoot: bool)
    requires MidOk(kind, u, n, h, i, cd, isRoot) && cd != 0
    ensures MidOk(kind, u, n, h, i, -1, isRoot)
  {
  }

  /** A sound tree is sound along any path. */
  lemma {:induction false} TreeAlong(kind: Kind, u: nat, n: Node, h: nat, path: Path)
    requires TreeOk(kind, u, n, h) && ValidPath(n, path)
    ensures OkAlong(kind, u, n, h, path, -1, false)
    decreases path
  {
    if path != [] {
      TreeAlong(kind, u, n.kids[path[0]], h - 1, path[1..]);
      AlongNegative(kind, u, n.kids[path[0]], h - 1, path[1..], -1, -2);
    }
  }

  lemma RootAlong(kind: Kind, u: nat, n: Node, h: nat, path: Path)
    requires RootOk(kind, u, n, h) && ValidPath(n, path)
    ensures OkAlong(kind, u, n, h, path, -1, true)
  {
    if path != [] {
      assert TreeOk(kind, u, n.kids[path[0]], h - 1);
      TreeAlong(kind, u, n.kids[path[0]], h - 1, path[1..]);
      AlongNegative(kind, u, n.kids[path[0]], h - 1, path[1..], -1, -2);
    }
  }

  /** Replacing a cell of the page cd levels down, where the new one may not fit on the page. */
  lemma {:induction false} AlongCell(kind: Kind, u: nat, n: Node, h: nat, path: Path, isRoot: bool, cd: nat, m: Node)
    requires OkAlong(kind, u, n, h, path, -1, isRoot) && cd < |path|
    requires ValidPath(n, path[..cd])
    requires var p := At(n, path[..cd]);
      && m.kids == p.kids && m.pgno == p.pgno && !m.leaf && |m.cells| == |p.cells| && PageFits(kind, u, m, 1)
      && (m.nOv == 1 ==> m.ovAt == path[cd] < |m.cells| && (1 < |m.cells| || (isRoot && cd == 0 && m.pgno == 1)))
    ensures OkAlong(kind, u, SetAt(n, path[..cd], m), h, path, cd, isRoot)
    decreases path
  {
    if cd == 0 {
      AlongNegative(kind, u, n.kids[path[0]], h - 1, path[1..], -2, -1);
    } else {
      assert path[..cd][0] == path[0] && path[..cd][1..] == path[1..][..cd - 1];
      AlongNegative(kind, u, n.kids[path[0]], h - 1, path[1..], -2, -1);
      AlongCell(kind, u, n.kids[path[0]], h - 1, path[1..], false, cd - 1, m);
      SetKidMid(kind, u, n, h, path[0], -1, isRoot, SetAt(n.kids[path[0]], path[1..][..cd - 1], m));
      AlongCdOther(kind, u, n.(kids := n.kids[path[0] := SetAt(n.kids[path[0]], path[1..][..cd - 1], m)]), h, path[0], cd, isRoot);
    }
  }

  lemma AlongCdOther(kind: Kind, u: nat, n: Node, h: nat, i: nat, cd: int, isRoot: bool)
    requires MidOk(kind, u, n, h, i, -1, isRoot) && cd > 0
    ensures MidOk(kind, u, n, h, i, cd, isRoot)
  {
  }
}
